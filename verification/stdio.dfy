/** The two standard streams as the converter sees them through `fread`
    and `fwrite`. Standard input is a finite byte sequence with a read
    position and the sticky end-of-file and error indicators of section
    7.21 of C11; standard output is the bytes written so far. What the
    environment does to an individual call (a read fault, a short write)
    is an oracle chosen per call. */
module Stdio {
  import opened Bytes

  /** What the environment does to one `fread` call: nothing, or a fault
      after at most `delivered` bytes, which sets the error indicator. */
  datatype ReadOutcome = Clean | Fault(delivered: nat)

  /** What the environment does to one `fwrite` call: accept every byte, or
      accept at most `written` of them. */
  datatype WriteOutcome = Complete | Short(written: nat)

  /** The environment's choices, call by call; calls past the end of either
      list behave normally. */
  datatype Oracle = Oracle(onRead: seq<ReadOutcome>, onWrite: seq<WriteOutcome>) {

    function ReadAt(k: nat): ReadOutcome {
      if k < |onRead| then onRead[k] else Clean
    }

    function WriteAt(k: nat): WriteOutcome {
      if k < |onWrite| then onWrite[k] else Complete
    }

    /** No read call ever faults. */
    predicate ReadsClean() {
      forall k | 0 <= k < |onRead| :: onRead[k] == Clean
    }

    /** No write call is ever short. */
    predicate WritesComplete() {
      forall k | 0 <= k < |onWrite| :: onWrite[k] == Complete
    }
  }

  /** An environment in which nothing goes wrong. */
  const NoFaults: Oracle := Oracle([], [])

  /** Standard input: its whole content, the read position, the two
      indicators and the number of `fread` calls made so far. */
  datatype Stdin = Stdin(data: seq<byte>, pos: nat, eof: bool, error: bool, calls: nat) {

    /** The position lies in the data, and end-of-file is only ever
        signalled once every byte has been delivered. */
    predicate Valid() {
      pos <= |data| && (eof ==> pos == |data|)
    }
  }

  /** Standard input as the process finds it: nothing read, no indicator set. */
  function Open(data: seq<byte>): (s: Stdin)
    ensures s.Valid() && s.data == data && s.pos == 0 && s.calls == 0
    ensures !s.eof && !s.error
  {
    Stdin(data, 0, false, false, 0)
  }

  /** Standard output: the bytes that reached it and the length requested
      by every `fwrite` call so far. */
  datatype Stdout = Stdout(bytes: seq<byte>, requests: seq<nat>)

  const EmptyOutput: Stdout := Stdout([], [])

  datatype ReadResult = ReadResult(got: seq<byte>, stream: Stdin)

  datatype WriteResult = WriteResult(written: nat, stream: Stdout)

  function Min(a: nat, b: nat): nat {
    if a < b then a else b
  }

  /** `part` is `whole[from..to]`. */
  predicate IsSlice(part: seq<byte>, whole: seq<byte>, from: int, to: int) {
    0 <= from <= to <= |whole| && part == whole[from..to]
  }

  /** `after` is `before` followed by `whole[from..to]`. */
  predicate AppendsSlice(before: seq<byte>, after: seq<byte>, whole: seq<byte>, from: int, to: int) {
    0 <= from <= to <= |whole| && after == before + whole[from..to]
  }

  /** `fread(buffer, 1, count, stdin)`: delivers the next bytes in order.
      It delivers fewer than `count` only at end of file, which it then
      signals, or on a fault, which sets the error indicator (section
      7.21.8.1 of C11). Once end-of-file is signalled nothing more is
      delivered (section 7.21.7.1). Both indicators stay set. */
  function Fread(s: Stdin, count: nat, o: Oracle): (r: ReadResult)
    requires s.Valid()
    ensures r.stream.Valid() && r.stream.data == s.data && r.stream.calls == s.calls + 1
    ensures IsSlice(r.got, s.data, s.pos, r.stream.pos) && |r.got| <= count
    ensures r.stream.error <==> s.error || o.ReadAt(s.calls).Fault?
    ensures s.eof ==> r.stream.eof
    ensures o.ReadAt(s.calls) == Clean && !s.eof ==> |r.got| == Min(count, |s.data| - s.pos)
    ensures o.ReadAt(s.calls) == Clean ==> (r.stream.eof <==> s.eof || |r.got| < count)
    ensures o.ReadAt(s.calls).Fault? ==> r.stream.eof == s.eof
  {
    var available := if s.eof then 0 else Min(count, |s.data| - s.pos);
    match o.ReadAt(s.calls)
    case Clean =>
      ReadResult(s.data[s.pos..s.pos + available],
                 s.(pos := s.pos + available, eof := s.eof || available < count, calls := s.calls + 1))
    case Fault(delivered) =>
      var n := Min(delivered, available);
      ReadResult(s.data[s.pos..s.pos + n],
                 s.(pos := s.pos + n, error := true, calls := s.calls + 1))
  }

  /** `fwrite(buffer, 1, |buf|, stdout)`: appends a prefix of `buf` to the
      output and returns its length, which is all of `buf` unless the
      environment makes this call short. */
  function Fwrite(out: Stdout, buf: seq<byte>, o: Oracle): (r: WriteResult)
    ensures AppendsSlice(out.bytes, r.stream.bytes, buf, 0, r.written)
    ensures r.stream.requests == out.requests + [|buf|]
    ensures o.WriteAt(|out.requests|) == Complete ==> r.written == |buf|
    ensures r.written < |buf| ==> o.WriteAt(|out.requests|).Short?
  {
    var n := match o.WriteAt(|out.requests|)
      case Complete => |buf|
      case Short(written) => Min(written, |buf|);
    WriteResult(n, Stdout(out.bytes + buf[..n], out.requests + [|buf|]))
  }
}

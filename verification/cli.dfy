/** The command line of rawaudioutil: `main` walks its arguments once,
    remembering the last mode flag and one size, rejects the invocation
    with status 1 when it is incomplete, and otherwise runs one conversion
    over the two standard streams. `atoi` is a parameter: the model does
    not fix how a size is spelled. */
module Cli {
  import opened Bytes
  import opened WaveHeader
  import opened Stdio
  import opened Convert

  const WAV2RAW: string := "--wav2raw"
  const RAW2WAV: string := "--raw2wav"

  const EXIT_USAGE: int := 1

  datatype Mode = ModeNone | ModeRaw2Wav | ModeWav2Raw

  /** The two variables of `main`'s argument loop. */
  datatype ArgState = ArgState(mode: Mode, filesize: int32)

  /** Before the first argument: no mode, and a size of -1 meaning "none yet". */
  const Initial: ArgState := ArgState(ModeNone, -1)

  /** The argument loop either stops on a usage error or runs to the end. */
  datatype Scan = UsageError | Scanned(state: ArgState)

  predicate IsFlag(arg: string) {
    arg == WAV2RAW || arg == RAW2WAV
  }

  function FlagMode(arg: string): Mode
    requires IsFlag(arg)
  {
    if arg == WAV2RAW then ModeWav2Raw else ModeRaw2Wav
  }

  /** One pass of the argument loop: a flag overwrites the mode; any other
      argument is parsed as the size while no non-negative size is known,
      and is a usage error after that. */
  function ScanArg(st: ArgState, arg: string, atoi: string -> int32): Scan {
    if arg == WAV2RAW then Scanned(st.(mode := ModeWav2Raw))
    else if arg == RAW2WAV then Scanned(st.(mode := ModeRaw2Wav))
    else if st.filesize < 0 then Scanned(st.(filesize := atoi(arg)))
    else UsageError
  }

  /** The argument loop over `argv[1..]`, from state `st`. */
  function ScanArgs(st: ArgState, args: seq<string>, atoi: string -> int32): Scan
    decreases |args|
  {
    if |args| == 0 then Scanned(st)
    else
      match ScanArg(st, args[0], atoi)
      case UsageError => UsageError
      case Scanned(next) => ScanArgs(next, args[1..], atoi)
  }

  /** What `main` decides to do. */
  datatype Command = Usage | Wav2RawCommand | Raw2WavCommand(filesize: int32)

  /** The argument loop followed by the check that a mode and a
      non-negative size were both given. */
  function ParseCommandLine(args: seq<string>, atoi: string -> int32): (c: Command)
    ensures c.Raw2WavCommand? ==> 0 <= c.filesize
  {
    match ScanArgs(Initial, args, atoi)
    case UsageError => Usage
    case Scanned(st) =>
      if st.mode == ModeNone || st.filesize < 0 then Usage
      else if st.mode == ModeWav2Raw then Wav2RawCommand
      else Raw2WavCommand(st.filesize)
  }

  // ---------------------------------------------------------------------
  // A reference description of the accepted command lines, independent of
  // the loop: the arguments that are not flags, and the last flag.

  /** The arguments that are not mode flags, in order. */
  function NonFlags(args: seq<string>): (r: seq<string>)
    ensures |r| <= |args|
    ensures forall k | 0 <= k < |r| :: !IsFlag(r[k])
  {
    if |args| == 0 then []
    else (if IsFlag(args[0]) then [] else [args[0]]) + NonFlags(args[1..])
  }

  /** The mode named by the last flag in `args`, or `m` if there is none. */
  function LastMode(m: Mode, args: seq<string>): Mode {
    if |args| == 0 then m
    else if IsFlag(args[|args| - 1]) then FlagMode(args[|args| - 1])
    else LastMode(m, args[..|args| - 1])
  }

  /** The size in force when the `k`-th non-flag argument arrives. */
  function SizeBefore(f0: int32, nonFlags: seq<string>, k: nat, atoi: string -> int32): int32
    requires k <= |nonFlags|
  {
    if k == 0 then f0 else atoi(nonFlags[k - 1])
  }

  /** Reading one more argument at the front leaves the last flag unchanged
      unless the rest has none. */
  lemma {:induction false} LastModeCons(m: Mode, a: string, rest: seq<string>)
    ensures LastMode(m, [a] + rest) == LastMode(if IsFlag(a) then FlagMode(a) else m, rest)
    decreases |rest|
  {
    if |rest| > 0 {
      var args := [a] + rest;
      assert args[|args| - 1] == rest[|rest| - 1];
      assert args[..|args| - 1] == [a] + rest[..|rest| - 1];
      LastModeCons(m, a, rest[..|rest| - 1]);
    }
  }

  /** Every non-flag argument arrives while the size is still negative,
      the size starting at `f0`. */
  predicate ArriveWhileNegative(f0: int32, nonFlags: seq<string>, atoi: string -> int32) {
    forall k | 0 <= k < |nonFlags| :: SizeBefore(f0, nonFlags, k, atoi) < 0
  }

  /** Peeling off the first non-flag argument: it must find the size
      negative, and it then supplies the size for the others. */
  lemma ArriveWhileNegativeCons(f0: int32, a: string, rest: seq<string>, atoi: string -> int32)
    ensures ArriveWhileNegative(f0, [a] + rest, atoi) <==> f0 < 0 && ArriveWhileNegative(atoi(a), rest, atoi)
    ensures SizeBefore(f0, [a] + rest, |rest| + 1, atoi) == SizeBefore(atoi(a), rest, |rest|, atoi)
  {
    var nf := [a] + rest;
    assert forall k | 1 <= k <= |nf| :: SizeBefore(f0, nf, k, atoi) == SizeBefore(atoi(a), rest, k - 1, atoi);
    if f0 < 0 && ArriveWhileNegative(atoi(a), rest, atoi) {
      forall k | 0 <= k < |nf|
        ensures SizeBefore(f0, nf, k, atoi) < 0
      {
        if k > 0 {
          assert SizeBefore(f0, nf, k, atoi) == SizeBefore(atoi(a), rest, k - 1, atoi);
        }
      }
    } else if f0 < 0 {
      var j :| 0 <= j < |rest| && SizeBefore(atoi(a), rest, j, atoi) >= 0;
      assert SizeBefore(f0, nf, j + 1, atoi) >= 0;
    } else {
      assert SizeBefore(f0, nf, 0, atoi) >= 0;
    }
  }

  /** The argument loop succeeds exactly when every non-flag argument
      arrives while the size is still negative; it then ends with the mode
      of the last flag and the size parsed from the last non-flag argument. */
  lemma {:induction false} ScanArgsSpec(st: ArgState, args: seq<string>, atoi: string -> int32)
    ensures ScanArgs(st, args, atoi).Scanned? <==> ArriveWhileNegative(st.filesize, NonFlags(args), atoi)
    ensures var nf := NonFlags(args);
      ScanArgs(st, args, atoi).Scanned? ==>
        ScanArgs(st, args, atoi).state == ArgState(LastMode(st.mode, args), SizeBefore(st.filesize, nf, |nf|, atoi))
    decreases |args|
  {
    if |args| > 0 {
      var a, rest := args[0], args[1..];
      assert args == [a] + rest;
      LastModeCons(st.mode, a, rest);
      var nf, nfRest := NonFlags(args), NonFlags(rest);
      if IsFlag(a) {
        assert nf == nfRest;
        var next := st.(mode := FlagMode(a));
        assert ScanArgs(st, args, atoi) == ScanArgs(next, rest, atoi);
        ScanArgsSpec(next, rest, atoi);
      } else {
        assert nf == [a] + nfRest;
        ArriveWhileNegativeCons(st.filesize, a, nfRest, atoi);
        if st.filesize < 0 {
          var next := st.(filesize := atoi(a));
          assert ScanArgs(st, args, atoi) == ScanArgs(next, rest, atoi);
          ScanArgsSpec(next, rest, atoi);
        }
      }
    }
  }

  /** Which command lines `main` accepts, and what it then runs: there must
      be a mode flag, the last one wins, and there must be a non-flag
      argument whose `atoi` value is non-negative, every earlier non-flag
      argument having a negative value. Duplicate or conflicting flags are
      not an error. */
  lemma ParseCommandLineSpec(args: seq<string>, atoi: string -> int32)
    ensures var nf, mode := NonFlags(args), LastMode(ModeNone, args);
      var accepted := mode != ModeNone && 0 < |nf| && 0 <= atoi(nf[|nf| - 1])
                      && forall k | 0 <= k < |nf| - 1 :: atoi(nf[k]) < 0;
      && (ParseCommandLine(args, atoi) != Usage <==> accepted)
      && (ParseCommandLine(args, atoi) == Wav2RawCommand <==> accepted && mode == ModeWav2Raw)
      && (ParseCommandLine(args, atoi).Raw2WavCommand? <==> accepted && mode == ModeRaw2Wav)
      && (ParseCommandLine(args, atoi).Raw2WavCommand? ==>
            ParseCommandLine(args, atoi).filesize == atoi(nf[|nf| - 1]))
  {
    var nf := NonFlags(args);
    ScanArgsSpec(Initial, args, atoi);
    var earlierNegative := forall k | 0 <= k < |nf| - 1 :: atoi(nf[k]) < 0;
    var scanOk := ArriveWhileNegative(Initial.filesize, nf, atoi);
    if 0 < |nf| {
      if earlierNegative {
        forall k | 0 <= k < |nf|
          ensures SizeBefore(Initial.filesize, nf, k, atoi) < 0
        {
          if k > 0 {
            assert atoi(nf[k - 1]) < 0;
          }
        }
      } else {
        var j :| 0 <= j < |nf| - 1 && atoi(nf[j]) >= 0;
        assert SizeBefore(Initial.filesize, nf, j + 1, atoi) >= 0;
      }
      assert scanOk <==> earlierNegative;
    }
  }

  /** What the process leaves behind: its exit status and its standard output. */
  datatype Outcome = Outcome(code: int, stdout: seq<byte>)

  /** `main`: parse the command line, then run the selected conversion from
      standard input (`input`) to an initially empty standard output. */
  function Program(args: seq<string>, atoi: string -> int32, input: seq<byte>, o: Oracle): (r: Outcome)
    ensures 0 <= r.code <= 5
    ensures r.code == EXIT_USAGE <==> ParseCommandLine(args, atoi) == Usage
    ensures r.code == EXIT_USAGE ==> r.stdout == []
    ensures ParseCommandLine(args, atoi) == Wav2RawCommand && r.code == EXIT_OK ==>
              HEADER_SIZE <= |input| && r.stdout == input[HEADER_SIZE..]
    ensures ParseCommandLine(args, atoi).Raw2WavCommand? && r.code == EXIT_OK ==>
              r.stdout == Header(ParseCommandLine(args, atoi).filesize) + input
    ensures ParseCommandLine(args, atoi) == Wav2RawCommand && |input| < HEADER_SIZE ==>
              r == Outcome(EXIT_HEADER_READ_ERROR, [])
    ensures ParseCommandLine(args, atoi).Raw2WavCommand? && o.WriteAt(0).Short?
            && o.WriteAt(0).written < HEADER_SIZE ==>
              r == Outcome(EXIT_HEADER_WRITE_ERROR,
                           Header(ParseCommandLine(args, atoi).filesize)[..o.WriteAt(0).written])
    ensures ParseCommandLine(args, atoi) != Usage && o.ReadsClean() && o.WritesComplete()
            && (ParseCommandLine(args, atoi) == Wav2RawCommand ==> HEADER_SIZE <= |input|)
            ==> r.code == EXIT_OK
  {
    match ParseCommandLine(args, atoi)
    case Usage => Outcome(EXIT_USAGE, [])
    case Wav2RawCommand =>
      var run := Wav2Raw(Open(input), EmptyOutput, o);
      Outcome(run.code, run.stdout.bytes)
    case Raw2WavCommand(filesize) =>
      var run := Raw2Wav(filesize, Open(input), EmptyOutput, o);
      Outcome(run.code, run.stdout.bytes)
  }

  /** End to end: whatever the environment does, when `--raw2wav` succeeds on
      a body and `--wav2raw` then succeeds on what it wrote, the body comes
      back unchanged; without faults both succeed. */
  lemma CommandLineRoundTrip(encode: seq<string>, decode: seq<string>, atoi: string -> int32,
                             body: seq<byte>, o1: Oracle, o2: Oracle)
    requires ParseCommandLine(encode, atoi).Raw2WavCommand?
    requires ParseCommandLine(decode, atoi) == Wav2RawCommand
    requires Program(encode, atoi, body, o1).code == EXIT_OK
    ensures var wav := Program(encode, atoi, body, o1).stdout;
      && |wav| == HEADER_SIZE + |body|
      && (Program(decode, atoi, wav, o2).code == EXIT_OK ==> Program(decode, atoi, wav, o2).stdout == body)
      && (o2.ReadsClean() && o2.WritesComplete() ==> Program(decode, atoi, wav, o2).code == EXIT_OK)
  {
    var wav := Program(encode, atoi, body, o1).stdout;
    assert wav[HEADER_SIZE..] == body;
  }

  /** The two flags are different strings. */
  lemma FlagsDiffer()
    ensures WAV2RAW != RAW2WAV && IsFlag(WAV2RAW) && IsFlag(RAW2WAV)
  {
    assert WAV2RAW[2] != RAW2WAV[2];
  }

  /** The argument loop over one more argument: the first step, then the rest. */
  lemma ScanArgsCons(st: ArgState, a: string, rest: seq<string>, atoi: string -> int32)
    ensures ScanArgs(st, [a] + rest, atoi)
            == match ScanArg(st, a, atoi)
               case UsageError => UsageError
               case Scanned(next) => ScanArgs(next, rest, atoi)
  {
    assert ([a] + rest)[1..] == rest;
  }

  /** The usual invocations: a flag and a non-negative size, in either order. */
  lemma TwoArguments(size: string, atoi: string -> int32)
    requires !IsFlag(size) && 0 <= atoi(size)
    ensures ParseCommandLine([RAW2WAV, size], atoi) == Raw2WavCommand(atoi(size))
    ensures ParseCommandLine([size, RAW2WAV], atoi) == Raw2WavCommand(atoi(size))
    ensures ParseCommandLine([WAV2RAW, size], atoi) == Wav2RawCommand
    ensures ParseCommandLine([size, WAV2RAW], atoi) == Wav2RawCommand
  {
    FlagsDiffer();
    ScanArgsCons(Initial, RAW2WAV, [size], atoi);
    ScanArgsCons(Initial, WAV2RAW, [size], atoi);
    ScanArgsCons(Initial, size, [RAW2WAV], atoi);
    ScanArgsCons(ArgState(ModeRaw2Wav, -1), size, [], atoi);
    ScanArgsCons(ArgState(ModeWav2Raw, -1), size, [], atoi);
    ScanArgsCons(ArgState(ModeNone, atoi(size)), RAW2WAV, [], atoi);
    ScanArgsCons(Initial, size, [WAV2RAW], atoi);
    ScanArgsCons(ArgState(ModeNone, atoi(size)), WAV2RAW, [], atoi);
  }

  /** Both flags given: no usage error, the later flag decides. */
  lemma BothFlagsLastWins(size: string, atoi: string -> int32)
    requires !IsFlag(size) && 0 <= atoi(size)
    ensures ParseCommandLine([RAW2WAV, WAV2RAW, size], atoi) == Wav2RawCommand
    ensures ParseCommandLine([WAV2RAW, size, RAW2WAV], atoi) == Raw2WavCommand(atoi(size))
  {
    FlagsDiffer();
    ScanArgsCons(Initial, RAW2WAV, [WAV2RAW, size], atoi);
    ScanArgsCons(ArgState(ModeRaw2Wav, -1), WAV2RAW, [size], atoi);
    ScanArgsCons(ArgState(ModeWav2Raw, -1), size, [], atoi);
    ScanArgsCons(Initial, WAV2RAW, [size, RAW2WAV], atoi);
    ScanArgsCons(ArgState(ModeWav2Raw, -1), size, [RAW2WAV], atoi);
    ScanArgsCons(ArgState(ModeWav2Raw, atoi(size)), RAW2WAV, [], atoi);
  }

  /** A size argument whose value is negative is replaced by the next
      non-flag argument instead of being rejected; after a non-negative one
      any further non-flag argument is a usage error. */
  lemma NegativeSizeIsReparsed(first: string, second: string, atoi: string -> int32)
    requires !IsFlag(first) && !IsFlag(second)
    ensures atoi(first) < 0 <= atoi(second) ==>
              ParseCommandLine([RAW2WAV, first, second], atoi) == Raw2WavCommand(atoi(second))
    ensures 0 <= atoi(first) ==> ParseCommandLine([RAW2WAV, first, second], atoi) == Usage
  {
    FlagsDiffer();
    ScanArgsCons(Initial, RAW2WAV, [first, second], atoi);
    ScanArgsCons(ArgState(ModeRaw2Wav, -1), first, [second], atoi);
    ScanArgsCons(ArgState(ModeRaw2Wav, atoi(first)), second, [], atoi);
  }

  /** 1000 zero bytes through `--raw2wav 1000`: 1044 bytes, the size fields
      1036 and 1000, and the zeros after the header; `--wav2raw` on that
      output gives the zeros back. */
  lemma ThousandZeroBytes(size: string, atoi: string -> int32)
    requires !IsFlag(size) && atoi(size) == 1000
    ensures var zeros := seq(1000, _ => 0 as byte);
      var wav := Program([RAW2WAV, size], atoi, zeros, NoFaults);
      && wav.code == EXIT_OK && |wav.stdout| == 1044
      && LE32At(wav.stdout, FILE_SIZE_OFFSET) == 1036 && LE32At(wav.stdout, DATA_SIZE_OFFSET) == 1000
      && wav.stdout[HEADER_SIZE..] == zeros
      && Program([WAV2RAW, size], atoi, wav.stdout, NoFaults) == Outcome(EXIT_OK, zeros)
  {
    TwoArguments(size, atoi);
    var zeros := seq(1000, _ => 0 as byte);
    var wav := Program([RAW2WAV, size], atoi, zeros, NoFaults);
    var h := Header(1000);
    assert wav.stdout == h + zeros;
    assert LE32At(wav.stdout, FILE_SIZE_OFFSET) == LE32At(h, FILE_SIZE_OFFSET);
    assert LE32At(wav.stdout, DATA_SIZE_OFFSET) == LE32At(h, DATA_SIZE_OFFSET);
    assert wav.stdout[HEADER_SIZE..] == zeros;
  }

  /** The declared size is trusted: `--raw2wav 5` on an empty input still
      succeeds and writes just the header declaring 5 data bytes. */
  lemma DeclaredSizeIsTrusted(size: string, atoi: string -> int32)
    requires !IsFlag(size) && atoi(size) == 5
    ensures var r := Program([RAW2WAV, size], atoi, [], NoFaults);
      r.code == EXIT_OK && r.stdout == Header(5)
      && LE32At(r.stdout, FILE_SIZE_OFFSET) == 41 && LE32At(r.stdout, DATA_SIZE_OFFSET) == 5
  {
    TwoArguments(size, atoi);
    assert Header(5) + [] == Header(5);
  }
}

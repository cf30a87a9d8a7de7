# rawaudioutil in Dafny

rawaudioutil is a small C filter, `main.c`, that converts between raw PCM audio and RIFF/WAVE. Both directions stream from standard input to standard output:

- `--raw2wav <filesize>` writes a 44-byte canonical WAVE header for a body of `filesize` bytes, then copies standard input unchanged.
- `--wav2raw` reads and discards the first 44 bytes of standard input, then copies the rest.

The copy loop, `redirect_data`, moves data in chunks of at most 512 KiB.

The process's exit statuses are:

| status | meaning |
|---|---|
| 0 | success |
| 1 | usage error |
| 2 | read fault during the copy |
| 3 | short write during the copy |
| 4 | the header could not be read |
| 5 | the header could not be written |

The model has five modules, one file each.

- `Bytes` (`bytes.dfy`) covers bytes and the C integer types:
  - `int` is 32-bit.
  - `size_t` is 64-bit.
  - An `int` is stored little-endian.
- `WaveHeader` (`wave_header.dfy`) covers the header template and the header `raw2wav` builds from it with two `memcpy` calls. It also reads a header back field by field (`Layout`), following the "WAVE Form Definition" of the Multimedia Programming Interface and Data Specifications 1.0. It proves two things:
  - Every header the program can emit has the canonical fields for its declared length.
  - A header is determined by its fields.
- `Stdio` (`stdio.dfy`) models the two streams as pure values.
  - Standard input is a byte sequence with a read position, the sticky end-of-file and error indicators, and a count of calls.
  - `fread` behaves as section 7.21.8.1 of C11 describes: it delivers fewer bytes than asked only at end of file or on an error.
  - An `Oracle` decides, call by call, whether a read faults or a write is cut short.
- `Convert` (`convert.dfy`) models the three conversion functions:
  - `redirect_data` appears twice: as a recursive function (`Redirect`) and as the while loop it is (`RedirectData`), with a proof that they agree.
  - `wav2raw` and `raw2wav` are built on `Redirect`.
  - The lemmas cover the write accounting, the error statuses, the fact that the header is never inspected, and the round trip.
- `Cli` (`cli.dfy`) models the argument loop and the dispatch in `main`.
  - `atoi` is a parameter.
  - `NonFlags`/`LastMode` give a description of the accepted command lines that does not depend on the loop, and a lemma proves the loop matches it.
  - `Program` is the whole process: exit status and standard output.

Where the code and its comments or documentation disagree, the model follows the code:

- The comment on the byte-rate field (main.c:48) says 1411200. The template bytes `10 B1 02 00` encode 176400, which is the correct byte rate for 44100 Hz, 2 channels and 16 bits (1411200 is the bit rate). `Canonical` and `FixedFieldsOf` state 176400, the value the program writes.
- Giving both `--raw2wav` and `--wav2raw` is not a usage error. Each flag overwrites the mode, so the last one wins (`BothFlagsLastWins`).
- There is no "unrecognised argument" error. Every argument that is not a flag goes to `atoi` while the size is still negative. An argument whose value is negative, a non-number included if `atoi` makes it negative, is therefore replaced by the next one (`NegativeSizeIsReparsed`).
- For every size `main` accepts (0 to 2^31-1), the file-size field cannot wrap. `filesize + 36` is computed in `size_t` and stored back into an `int`. On the usual compilers that store is a modulo-2^32 reduction, which leaves the stored bit pattern equal to `filesize + 36` (`FileSizeInHeader`, `Header`). `HeaderSizeFieldsWrap` gives both fields for any `int`, negative ones included.

## Model

| member | source | states |
|---|---|---|
| Bytes.EncodeLE32 | main.c:88-89 | an `int` copied by `memcpy` on a little-endian host is four bytes, least significant first, that read back as the same unsigned value |
| Bytes.EncodeDecodeLE32 | main.c:88-89 | the little-endian encoding is unique: any four bytes are the encoding of the value they hold |
| Bytes.StoreInt | main.c:88-89 | the four bytes stored for an `int` read back as its 32-bit two's-complement pattern |
| Bytes.IntOfSizeT | main.c:85 | storing a `size_t` into an `int` keeps values up to `INT_MAX`, is congruent modulo 2^32 otherwise, and keeps the 32-bit pattern of any value below 2^32 |
| WaveHeader.Patch | main.c:88-89 | `memcpy` into the template overwrites exactly the target bytes with the source bytes and leaves every other byte and the length unchanged |
| WaveHeader.FileSizeInHeader | main.c:85 | `filesize + sizeof(wave_header) - 8` is congruent to `filesize + 36` modulo 2^32; its bit pattern is exactly `filesize + 36` for every non-negative size, and so is its value when that fits in an `int` |
| WaveHeader.Header | main.c:84-89 | the header is 44 bytes, equals the template outside bytes 4..7 and 40..43, and holds the little-endian `filesize + 36` at offset 4 and `filesize` at offset 40 |
| WaveHeader.HeaderSizeFieldsWrap | main.c:85-89 | for any `int`, negative ones included, the two size fields hold `filesize + 36` and `filesize` reduced modulo 2^32 |
| WaveHeader.Canonical | main.c:40-52 | the canonical fields for a body length: RIFF size = length + 36, data size = length, 16-byte PCM format, and block alignment and byte rate consistent with the channel count, sample rate and sample width |
| WaveHeader.FixedFieldsOf | main.c:40-52 | any bytes that agree with the template outside the size fields carry the four chunk identifiers, format length 16, PCM, 2 channels, 44100 Hz, 176400 bytes per second, block alignment 4 and 16 bits per sample |
| WaveHeader.HeaderLayout | main.c:40-52 | every header `raw2wav` can emit reads back, field by field, as the canonical fields for its declared length |
| WaveHeader.LayoutInjective | main.c:40-52 | two 44-byte headers with the same fields are the same bytes |
| WaveHeader.LayoutDeterminesHeader | main.c:84-89 | any 44 bytes carrying the canonical fields for a length are exactly the header emitted for that length |
| Stdio.Fread | main.c:59 | `fread` delivers the next unread bytes in order and at most the count asked; it delivers fewer only at end of file (which it then signals) or on a fault (which sets the error indicator); both indicators are sticky |
| Stdio.Fwrite | main.c:66 | `fwrite` appends a prefix of the buffer to the output and returns its length, which is the whole buffer unless this call is cut short |
| Convert.Iteration | main.c:59-69 | one pass reads at most `BUFFER_SIZE` bytes; it stops with 2, before anything is written, exactly when the error indicator is set, that is when it was already set or this read faults; otherwise the chunk is written with one request, and it stops with 3 exactly when that write is cut short below the chunk length, leaving a strict prefix of the chunk; a full write continues with the chunk appended |
| Convert.Redirect | main.c:56-73 | the loop returns 0, 2 or 3; on 0 the output is the prior output followed by every unread input byte, in order, and end of file is set; an error indicator already set before end of file gives 2; without faults it returns 0 |
| Convert.RedirectSucceedsOnlyWithCleanReads | main.c:58-72 | status 0 only if every read the loop issued came back without a fault and the error indicator is unchanged |
| Convert.RedirectSucceedsOnlyWithFullWrites | main.c:58-72 | status 0 only if every write the loop issued was accepted in full |
| Convert.RedirectData | main.c:58-72 | the while loop computes exactly the status and streams `Redirect` describes, keeping the bytes written equal to the bytes consumed so far |
| Convert.RedirectOutputIsPrefix | main.c:58-72 | whatever the faults, the output only grows, and what it gains is a prefix of the input bytes consumed |
| Convert.RedirectWrites | main.c:58-70 | each pass issues exactly one write except a pass that stops on a read fault; no write request exceeds `BUFFER_SIZE` = 512 KiB |
| Convert.RedirectFailures | main.c:61-69 | status 2 only with the error indicator set; status 3 only when the last write was cut short, and the output is then shorter than the input consumed |
| Convert.RedirectEmptyInput | main.c:58-72 | an empty input yields status 0 and no output, or 2 if its single read faults |
| Convert.Wav2Raw | main.c:75-82 | status 4 leaves the output untouched; fewer than 44 remaining bytes, or end of file already set, always give 4, and with a clean first read 4 happens only then; a fault on the header read gives 4 or 2, never 0 or 3; on 0 the output is the input with its first 44 bytes dropped; without faults and with 44 bytes available it returns 0 |
| Convert.RedirectDependsOnUnread | main.c:56-73 | the copy loop's status and output depend only on the unread input, the indicators and the call count |
| Convert.IterationDependsOnUnread | main.c:59-69 | one pass on two inputs that agree from the read position on stops or continues alike, with the same status and output, and leaves them agreeing from the new position on |
| Convert.HeaderNotInspected | main.c:75-82 | inputs differing only in their first 44 bytes give `wav2raw` the same status and output |
| Convert.SkipHeader | main.c:75-82 | on a 44-byte header followed by a body, a successful `wav2raw` outputs the body |
| Convert.Raw2Wav | main.c:84-105 | status 5 happens exactly when the header write is cut short below 44 bytes; the input is then never read and the output holds exactly the bytes of the header that were accepted, a strict prefix of it; on 0 the output is the header for the declared size followed by the whole input, whatever its length; without faults it returns 0 |
| Convert.RoundTrip | main.c:75-105 | under any faults, a successful `raw2wav` outputs 44 + body bytes whose header has the canonical fields, and a successful `wav2raw` on that output gives back the body |
| Convert.RoundTripWithoutFaults | main.c:75-105 | without faults both conversions succeed and `wav2raw` after `raw2wav` is the identity on the body |
| Cli.ParseCommandLine | main.c:109-132 | `main` only dispatches to `raw2wav` with a non-negative size |
| Cli.ScanArgsSpec | main.c:111-127 | the argument loop completes exactly when every non-flag argument arrives while the size is negative, and it ends with the mode of the last flag and the size of the last non-flag argument |
| Cli.ParseCommandLineSpec | main.c:109-132 | a command line is accepted exactly when it has a flag and its non-flag arguments all have negative `atoi` values except the last, which is non-negative; the last flag picks the conversion and the last non-flag argument gives the size |
| Cli.Program | main.c:107-140 | the exit status is 1 exactly on a usage error, which writes nothing; otherwise it is the selected conversion's status: `--wav2raw` on fewer than 44 bytes exits 4 with no output, `--raw2wav` whose header write is cut short exits 5 with only the accepted header bytes as output, and on success the output is the body without its header, or the header followed by the input; without faults and with a 44-byte header to skip it exits 0 |
| Cli.CommandLineRoundTrip | main.c:134-140 | a successful `--raw2wav` run followed by a `--wav2raw` run on its output returns the original input when the second run succeeds, and the second run succeeds without faults |
| Cli.TwoArguments | main.c:111-132 | a flag and a non-negative size are accepted in either order |
| Cli.BothFlagsLastWins | main.c:114-119 | with both flags present there is no usage error and the later flag selects the conversion |
| Cli.NegativeSizeIsReparsed | main.c:120-126 | a size argument with a negative value is replaced by the next non-flag argument; after a non-negative one a further non-flag argument is a usage error |
| Cli.ThousandZeroBytes | main.c:84-105 | `--raw2wav 1000` on 1000 zero bytes writes 1044 bytes with size fields 1036 and 1000, and `--wav2raw` turns them back into the zeros |
| Cli.DeclaredSizeIsTrusted | main.c:84-105 | `--raw2wav 5` on an empty input succeeds and writes a header declaring 5 data bytes |

## Left out

- The big-endian branch (main.c:90-96) is not modelled. It casts an `int` value to a pointer and copies the same byte four times, so it has no coherent behaviour to state; the model is the little-endian branch.
- The internals of `fread`, `fwrite`, `feof` and `ferror` are not modelled. They are pure functions over the stream values, and every fault comes from the `Oracle`. `fread` follows C11, so a clean read delivers `min(count, remaining)` bytes. The size of each chunk is therefore fixed by the input length and not chosen by the environment.
- How `atoi` parses a string is not modelled; it is a parameter of type `string -> int32`. Its undefined behaviour on values outside the `int` range is therefore not modelled either.
- The usage text (`show_usage`), the diagnostics written to standard error and `exit` are not modelled. `fflush(stdin)` (main.c:142) is undefined for input streams in C11.
- `fflush(stdout)` (main.c:143) is not modelled, and the program ignores its result. The standard output of the model is the bytes `fwrite` accepted, not the bytes that reached the file. A failure that shows only at that final flush still exits 0 with truncated output, so "status 0 implies the output equals the expected bytes" is a statement about what `fwrite` accepted.
- The mutable globals `wave_header` and `buffer` become fresh immutable values on every call. `raw2wav` runs at most once per process, so the patched template is never reused.
- `Cli.ScanArg` and `Cli.ScanArgs`, the loop body and the loop, carry no contract of their own. What they compute is stated by `Cli.ScanArgsSpec` and `Cli.ParseCommandLineSpec`.

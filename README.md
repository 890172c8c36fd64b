# mcpscan core in Dafny

mcpscan is a Minecraft Java Edition port scanner. It reads a host or a
`.txt` list of hosts and command-line flags. It then sends each port the
"Server List Ping" handshake and status request, and keeps the status JSON
of every server that answers.

This project models the deterministic core of that program and proves
properties of it:

- **VarInt codec** (`varint.dfy`, module `VarInt`):
  - `writeVarInt` is a method with its loop. It is proved equal to the
    reference encoding `EncodeVarInt`.
  - `readVarInt` is a method with its loop, reading the bytes the reader
    would deliver. It is proved equal to the reference decoding
    `DecodeVarInt`.
  - Both are then related: the round trip, the 1-to-5 byte shape, the
    "VarInt is too large" rule, the end-of-input error and the 2^35 bound.
- **Packets** (`packet.dfy`, module `Packet`):
  - `createPacket` is a function.
  - `createHandshakePacket` is a method that writes the fields into a
    buffer one after another.
  - Both are proved to lay out the bytes a server reads back field by field.
- **Status response** (`status.dfy`, module `Status`):
  - The reader of `getPingResult` from the packet length to the JSON bytes
    is a function over the received bytes, with one error per early return.
  - The sanitizing step is a method over the decoded tree. It deletes
    `favicon` and `forgeData.d` from a local map.
  - It is specified by `Sanitized`, which is proved idempotent.
- **Flags** (`args.dfy`, module `Args`):
  - `hasBoolFlag` and `findFlagValue` are methods with their search loops,
    specified by `FlagPresent` and `FlagValue`.
  - `ParseFlags` is a method that overwrites the fields of a default
    `ScannerConfig`. Its result is stated for every argument list.
- **Host list** (`host.dfy`, module `Host`):
  - `ResolveHosts` picks single-host or file mode and filters the file's
    lines in a loop.
  - The file is given as the sequence of lines the scanner produces.
- **Go library functions** (`strings.dfy`, module `GoStrings`; `results.dfy`,
  module `Results`):
  - The parts of Go's `strings`/`unicode` packages that the core uses.
  - The `Option`/`Result` wrappers.

Integers are Go `int`s (64-bit). Where the source truncates or wraps, the
model says so:

- `int(uint32(value) >> 7)` in `writeVarInt` truncates to 32 bits.
- `time.Duration(i) * time.Second` wraps in int64.

`writeVarInt` takes any `int`. Only its first group comes from the full
value; every later group comes from the low 32 bits
(`int(uint32(value) >> 7)`). A value in [-2^31, 0) goes out in five bytes;
smaller negatives can give shorter, non-canonical encodings (-2^32 gives
`80 00`). So `EncodeVarInt` is total and the round trip is stated modulo
2^32.

## Model

| member | source | states |
|---|---|---|
| VarInt.EncodeVarInt | minecraft.go:16-27 | the reference encoding; `EncodeShape` gives its 1-to-5 byte shape and `VarIntRoundTrip` shows `DecodeVarInt` reads it back as the value mod 2^32 |
| VarInt.WriteVarInt | minecraft.go:16-27 | the bytes the loop appends are `EncodeVarInt(value)` for every int, negative ones included |
| VarInt.NextGroupBounds | minecraft.go:24 | `int(uint32(value) >> 7)` lies in [0, 2^25) and is at most value/128 for a non-negative value, so the loop ends |
| VarInt.EncodeShape | minecraft.go:16-27 | for every int the encoding is 1 to 5 bytes; every byte but the last has bit 0x80 set; the last has it clear |
| VarInt.EncodeUnsignedShape | minecraft.go:16-27 | a value in [0, 2^32) below 128^n encodes in at most n bytes |
| VarInt.UnsignedLength | minecraft.go:16-27 | a value in [128^(n-1), 128^n), below 2^32, takes exactly n bytes |
| VarInt.NegativeLength | minecraft.go:16-27 | a negative value in [-2^31, 0) takes exactly five bytes |
| VarInt.NegativeExamples | minecraft.go:16-27 | -1 goes out as FF FF FF FF 0F, and -2^32 as 80 00 |
| VarInt.DecodeVarInt | minecraft.go:29-46 | a successful read consumes 1 to 5 bytes, no more than are available, and yields a value in [0, 2^35) |
| VarInt.ReadVarInt | minecraft.go:29-46 | the Go loop, OR-ing each 7-bit group in at its position and stopping at `position >= 32`, returns exactly `DecodeVarInt` of the delivered bytes |
| VarInt.VarIntOutcome | minecraft.go:30-45 | success: the last byte read is the first without bit 0x80. "Too large" exactly when the first five bytes are all flagged. Reader error exactly when the input ends before either |
| VarInt.VarIntRoundTrip | minecraft.go:16-46 | reading `writeVarInt(v)` followed by anything gives v mod 2^32 and consumes exactly the written bytes, for every int v |
| VarInt.VarIntRoundTripUnsigned | minecraft.go:16-46 | for 0 <= v < 2^32 the round trip gives back exactly v |
| VarInt.DecodeReadsAtMostFive | minecraft.go:36-43 | two inputs that agree on their first five bytes read the same: a sixth byte is never read |
| VarInt.DecodeExtend | minecraft.go:29-46 | a successful read is unchanged by whatever bytes follow it |
| Packet.CreatePacket | minecraft.go:48-53 | the framing `VarInt(len(payload)) ++ payload` with `payload = VarInt(id) ++ data`; `FrameRoundTrip` reads it back field by field |
| Packet.FrameRoundTrip | minecraft.go:48-53 | a framed packet reads back as its payload length, then its packet id (both mod 2^32), then the data and whatever followed |
| Packet.StatusRequestBytes | minecraft.go:90 | the status request `createPacket(0x00, [])` is the two bytes 0x01 0x00 |
| Packet.VersionBytes | minecraft.go:56-58 | protocol version 765 is written as 0xFD 0x05 |
| Packet.CreateHandshakePacket | minecraft.go:55-64 | the buffer written field by field and framed with id 0x00 is `CreatePacket(0x00, HandshakePayload(host, port))` |
| Packet.HandshakeLayout | minecraft.go:57-62 | the five writes into the buffer concatenate to the handshake payload |
| Packet.HandshakeFields | minecraft.go:55-64 | reading the payload gives 765, the host length, the host bytes, the port big-endian and next state 1, in that order |
| Status.ParseStatusResponse | minecraft.go:97-100 | reads and skips the packet length, then `ReadPacketBody`; `ParsedContent` and `ParseFromFields` together state exactly when it succeeds and with which bytes |
| Status.ReadPacketBody | minecraft.go:102-108 | the packet id must read as 0, otherwise the read value is reported; `UnexpectedIdRejected` states the rejection |
| Status.ReadJsonString | minecraft.go:110-121 | the JSON length must read as positive and that many bytes must follow; `ZeroJsonLengthRejected` and `ShortJsonRejected` state the two errors |
| Status.ResponseRoundTrip | minecraft.go:97-121 | a status packet carrying `VarInt(len(json)) ++ json` (json non-empty), followed by anything, reads back as exactly json |
| Status.SkipPacketLength | minecraft.go:97-100 | after the leading packet length the reader continues right after that VarInt |
| Status.PacketLengthIgnored | minecraft.go:97-100 | the value of the packet length is never checked: any two values read the same |
| Status.UnexpectedIdRejected | minecraft.go:102-108 | a packet id that reads as anything but 0, in any encoding the reader accepts, is rejected and reported with the value read |
| Status.ZeroJsonLengthRejected | minecraft.go:110-116 | after an id reading as 0, a JSON length that reads as 0, in any encoding, is rejected as an invalid length |
| Status.CanonicalRejections | minecraft.go:97-116 | the canonical encodings `writeVarInt(id)` of a non-zero id below 2^32, and `00` of a zero length, are rejected that way |
| Status.ParsedContent | minecraft.go:97-121 | on success the input is a packet length of `a` bytes, a packet id reading as 0 in `b` bytes, a JSON length reading as the result's size in `c` bytes, then the result byte for byte; nothing after it is read |
| Status.ParseFromFields | minecraft.go:97-121 | conversely, any packet length, an id reading as 0 and a length n > 0 in any accepted encoding, followed by at least n bytes, read as those n bytes |
| Status.ShortJsonRejected | minecraft.go:118-121 | with an id reading as 0 and a length n > 0 but fewer than n bytes after it, the read fails with EOF when nothing follows and UnexpectedEOF otherwise |
| Status.ReadByValueExamples | minecraft.go:102-121 | fields are judged by the value read: a zero length sent as 0x80 0x00 is invalid, a five-byte id reading as 2^32 is unexpected, and length 5 with one byte is UnexpectedEOF |
| Status.Sanitized | minecraft.go:131-137 | the keys are the document's keys minus `favicon`. Every key but `forgeData` keeps its value. `forgeData` loses `d` when it is an object and is otherwise unchanged |
| Status.SanitizeIdempotent | minecraft.go:131-137 | sanitizing a sanitized document changes nothing |
| Status.ForgeDataKept | minecraft.go:133-137 | a `forgeData` object whose only key is `d`, whatever its value, stays, as an empty object |
| Status.ProcessStatusResponse | minecraft.go:97-137 | a read error is passed on. A decoded object comes back as `Sanitized` of it. JSON null comes back as null. Anything else is an unmarshal error |
| Args.HasBoolFlag | args.go:36-45 | true exactly when some argument is `--long`, or `-short` with a non-empty short name |
| Args.FindFlagValue | args.go:23-34 | `found` and `value` are those of `FlagValue`; `value` is "" when nothing is found |
| Args.FlagValueFirst | args.go:23-34 | FlagValue is None exactly when no occurrence is followed by an argument not starting with "-"; otherwise it is the argument after the first such occurrence |
| Args.Atoi | args.go:78 | a parsed value lies in the int64 range, is non-negative unless the text starts with "-", and the text after its optional sign is a non-empty run of digits |
| Args.AtoiRejects | args.go:78 | text with a non-digit after the optional sign is rejected |
| Args.AtoiRejectsEmpty | args.go:78 | text with nothing after the optional sign ("", "+", "-") is rejected |
| Args.AtoiExamples | args.go:78 | "abc", "+x", "-", "" and "12a" are rejected; "+7" reads as 7 and "-42" as -42 |
| Args.AtoiItoa | args.go:77-91 | every int64 written in decimal parses back to itself |
| Args.Wrap64 | args.go:84 | the wrapped product lies in the int64 range and is congruent to the exact product mod 2^64 |
| Args.TimeoutInRange | args.go:84 | a timeout of up to 9223372036 seconds becomes exactly that many seconds in nanoseconds |
| Args.TimeoutWraps | args.go:84 | a timeout of 9223372037 seconds wraps to a negative duration |
| Args.Ext | args.go:70 | `filepath.Ext` on a slash-separated path, characterized by `ExtShape` |
| Args.ExtShape | args.go:70 | `filepath.Ext` is a suffix of the path. When non-empty it is a dot followed by no dot or slash. When empty, every dot of the path has a slash after it |
| Args.DefaultOutputPath | args.go:68-73 | the host input without its extension plus `_results.txt`; `DefaultOutputDropsExtension`, `DefaultOutputWithoutExtension` and `DefaultOutputExample` state its results |
| Args.DefaultOutputDropsExtension | args.go:68-73 | with no output flag, a host input `base.ext` gives `base_results.txt` |
| Args.DefaultOutputWithoutExtension | args.go:68-73 | a host input with no dot gets `_results.txt` appended |
| Args.DefaultOutputExample | args.go:68-73 | `hosts.txt` gives `hosts_results.txt` |
| Args.IntFlag | args.go:77-82 | a numeric field: the flag's value when Atoi accepts it, the default otherwise; `ReadIntFlag` computes it and `IntFlagNonNegative` bounds it |
| Args.TimeoutFlag | args.go:83-85 | the timeout field: the flag's value in seconds, converted by the wrapping `SecondsToDuration`, when Atoi accepts it; the default otherwise; `TimeoutInRange` and `TimeoutWraps` state the conversion |
| Args.IntFlagKeepsDefault | args.go:77-91 | a flag whose value Atoi rejects leaves its field at the default |
| Args.UnparsableWorkersExample | args.go:77-79 | `--workers abc` leaves the worker count at 150 |
| Args.DefaultsKept | args.go:13-56 | with no numeric flag the config fields are the defaults: 150 workers, 200 scans per second, a 5 s timeout, ports 25000 to 30000 |
| Args.IntFlagNonNegative | args.go:77-91 | a numeric flag with a non-negative default never becomes negative, since a value starting with "-" is never taken |
| Args.ReadIntFlag | args.go:77-82 | one numeric flag: the parsed value when the flag has one that Atoi accepts, the current value otherwise |
| Args.ParseFlags | args.go:47-94 | help wins and yields the defaults with ShowHelp, even without a host. A missing host value is an error with the defaults. Otherwise each numeric field is its flag's parsed value or its default, with no range check. The timeout is in seconds. Debug is set exactly when its flag is present. The output path is the flag's value or the derived default |
| GoStrings.ToLower | host.go:11 | `strings.ToLower` keeps the length and folds ASCII letters only (see Left out) |
| GoStrings.HasPrefix | host.go:23 | `strings.HasPrefix`: the string starts with the prefix |
| GoStrings.HasSuffix | host.go:11 | `strings.HasSuffix`: the string ends with the suffix |
| GoStrings.TrimSuffix | args.go:70 | `strings.TrimSuffix`: the suffix removed when present, the string unchanged otherwise |
| GoStrings.TrimSuffixOfConcat | args.go:70 | trimming a suffix that was appended gives back the original string |
| GoStrings.TrimSpace | host.go:22 | `strings.TrimSpace` over `unicode.IsSpace`; `TrimSpaceShape` and `TrimSpaceIdempotent` characterize it |
| GoStrings.TrimSpaceShape | host.go:22 | the trimmed line is the slice of the line between its leading and trailing white space, and has none at either end |
| GoStrings.TrimSpaceIdempotent | host.go:22 | trimming a trimmed line changes nothing |
| Host.IsHostFile | host.go:11 | the file-mode test `HasSuffix(ToLower(input), ".txt")`; `IsHostFileChars` characterizes it by the last four characters |
| Host.IsHostFileChars | host.go:11 | file mode exactly when the input ends in ".txt" in any letter case |
| Host.HostFileExamples | host.go:11 | "hosts.txt" and "HOSTS.TXT" are files; "mc.example.com" and "txt" are single hosts |
| Host.KeptHosts | host.go:19-26 | the hosts read from the lines; `KeptHostsIndices`, `KeptHostsMember` and `KeptHostsValid` characterize them |
| Host.KeptHostsSnoc | host.go:21-25 | one more line appends its trimmed text exactly when that is non-empty and does not start with "#" |
| Host.KeptHostsValid | host.go:22-24 | every host read from a file is non-empty, has no white space at either end and does not start with "#" |
| Host.KeptHostsMember | host.go:21-26 | a string is a host exactly when it passes the filter and some line trims to it |
| Host.KeptHostsIndices | host.go:21-26 | the hosts are the kept lines in file order: increasing line indices, and every line that passes the filter is among them |
| Host.KeptHostsAppend | host.go:21-26 | reading two runs of lines gives their host lists one after the other |
| Host.KeptHostsNone | host.go:19-30 | a file of only blank and "#" lines yields no hosts |
| Host.ResolveHosts | host.go:10-35 | a non-".txt" input is the one host. An unopenable or unreadable file is an error with no hosts. Otherwise the result is `KeptHosts` of the lines |

## Left out

- Network I/O in `getPingResult` (minecraft.go:66-95) is not modelled: dialling, deadlines, `conn.Write` and closing. The bytes sent are `CreateHandshakePacket` and the status request. The reply is the sequence of bytes the connection delivers.
- `readVarInt` reads from an `io.ByteReader`; the model reads a byte sequence. The reader's own error is `EndOfStream`. Other I/O errors are not distinguished.
- `json.Unmarshal` is a parameter of `ProcessStatusResponse`, and `json.Marshal` (minecraft.go:139-145) is not modelled. The result is the sanitized tree, not its text. JSON numbers are abstract reals.
- Error message texts are not modelled; each early return has its own error constructor.
- `log.Printf` debug output and `PrintUsage` (args.go:96-110) only print. The "Defaulting to" message (args.go:72) and the two `fmt.Printf` messages of `ResolveHosts` (host.go:12, host.go:33) are left out for the same reason.
- `os.Open` and `bufio.Scanner` in `ResolveHosts` are not modelled. The file is a `HostFile` value: either it could not be opened, or its lines plus whether reading failed. Line splitting and the scanner's token-size limit lie behind that flag.
- GoStrings.ToLower folds ASCII letters only. Only the last four characters decide file mode, and no non-ASCII character lowercases to '.', 't' or 'x'.
- Args.Atoi accepts ASCII digits with an optional sign, as `strconv.Atoi` does in base 10. Its error values are not modelled.
- Args.Ext treats '/' as the only path separator, as `filepath.Ext` does on Unix.
- The handshake host is its UTF-8 bytes (`seq<byte>`). Converting the Go string to bytes is not modelled. Flags and host-file lines are strings of characters.
- scanner.go (workers, rate limiter, progress output) and main.go (process exit, output file) are not part of this model.

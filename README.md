# klzip transcoding core, in Dafny

klzip is a gzip-compatible command-line tool written in Go. This project models its core:

- **Plain compression** (`CompressFile`, compress.go). A file is compressed into a gzip member next to it.
- **Decompression** (`DecompressFile`, decompress.go). A gzip member is decompressed into the file named by removing the suffix.
- **Xflate compression** (`XflateCompressFile` with `writeGzipHeader`, `writeBytes` and `writeString`, xflate.go). This is the "rsyncable" mode. It assembles a gzip member by hand: a header written field by field, the xflate stream, and a CRC-32/ISIZE trailer accumulated by fanning the input out to the compressor and to a hasher.
- **Command-line logic** (`main`, `getLevel`, `compressHandler`, `decompressHandler`, main.go). This turns flags and arguments into one operation.

All three file operations share one protocol:

1. Stat and open the source.
2. Refuse an existing destination unless forced.
3. Stage the output in a temporary file.
4. Transform the input.
5. Flush, atomically replace the destination, and stat it.
6. Remove the source unless `keep` is set.

`Transcode.Run` states this protocol as a function over a map from paths to contents. Each operation's imperative method (`Compress.CompressFile`, `Decompress.DecompressFile`, `Xflate.XflateCompressFile`) is proved to change the filesystem object and return the error exactly as `Run` does. Each uses its own output path and its own staging function. The properties of the protocol are then proved once, about `Run`:

- each failing step (stat, open, temporary file, a phase of the transformation, flush, replace, the stat after it, remove) is reported exactly when the protocol reaches it, a step that is not reached is never reported, and every error other than the last two leaves the filesystem unchanged;
- without force, an existing destination is refused;
- the destination only ever receives the complete staged output;
- the source is removed only on success and only without `keep`.

Operating-system failures, the room left on the device, modification times and the external codecs are parameters (`Transcode.Env`). At most one step fails, and the gzip/xflate codecs are given as functions of their whole input. The properties above hold for every choice of failing step, and the staging functions report the failing phase of the transformation exactly when they reach it. The xflate stage reaches every phase, its own header and footer writes included; plain compression and decompression leave the header and footer to the codec, so a failure at WriteHeader, WriteChecksum or WriteSize is not reached there.

The gzip header writer is specified by `GzipHeader.EncodeHeader`, the bytes it attempts to emit. An independent reader of the RFC 1952 layout, `GzipHeader.ParseHeader`, is its partner: `GzipHeader.HeaderRoundTrip` proves that reading back what was written gives the header, with MTIME truncated to 32 bits. `Xflate.MemberLayout` proves that an xflate member reads back as header, then stream, then the CRC-32 and length of the input. `RoundTrip.CompressThenDecompress` proves that compressing a file and decompressing the result restores the filesystem exactly, given a gzip reader that inverts the gzip writer.

CRC-32 is the bitwise IEEE algorithm that section 2.3.1 of RFC 1952 requires; section 8 of RFC 1952 gives its sample code. Its streaming form is proved independent of how the input is split (`Crc32.UpdateAppend`), and it is checked against the standard check value (`Crc32.CheckValue`).

Behaviours of the code worth knowing, which the model keeps:

- **A refused header string leaves bytes written.** A name or comment with a character outside Latin-1 is refused in `writeString` before that field is written. By then, `writeGzipHeader` has already written the 10-byte prefix and any earlier field. See `GzipHeader.RefusedStringWritesNothing` and `HeaderWriter.WriteGzipHeader`.
- **No check for a missing suffix in decompression.** `DecompressFile` has no diagnostic when the name lacks the suffix: the output path is then the input path itself.
  - Without force, this is refused as an existing destination (`Decompress.MissingSuffixRefused`).
  - With force and without keep, the decoded data replaces the input, and that path is then removed. The file is gone and the call reports success (`Decompress.MissingSuffixForcedLosesFile`).
- **Package globals.** `filename` and `suffix` are package globals, and `os.Args` is truncated in place. They are the fields of the class `Cli.Invocation`.
- **MTIME of an unnamed xflate member.** In xflate mode `writeGzipHeader` writes MTIME itself, and for an unnamed member it is not 0, which RFC 1952 reserves for "no time stamp". It is `uint32` of the zero `time.Time`, 0x886E0900 (`GzipHeader.ZeroTimeMTime`, `Xflate.UnnamedHeader`). Plain compression leaves the header bytes to the gzip library's writer, which this model does not open.
- **Results after promotion.** A failure to stat the destination after the replace is reported as an error, although the destination has already been promoted (`Transcode.AfterPromotion`).

## Model

| member | source | states |
|---|---|---|
| Wire.Le16 | xflate.go:223-225 | the two XLEN bytes decode back to the length they encode |
| Wire.Le32 | xflate.go:188 | four little-endian bytes that decode back to the value (MTIME, CRC32, ISIZE) |
| Wire.Le32OfDecode | xflate.go:127-134 | any four bytes are the little-endian encoding of the number they decode to |
| Wire.Uint32 | xflate.go:188 | Go's `uint32(x)`: below 2^32, congruent to x modulo 2^32, the identity on values in range |
| Crc32.UpdateAppend | xflate.go:107-109 | folding in `a` then `b` equals folding in `a + b`, so the checksum does not depend on how io.Copy splits the input |
| Crc32.CheckValue | xflate.go:107 | the IEEE CRC-32 of "123456789" is 0xCBF43926 |
| Crc32.Checksum | xflate.go:107 | the IEEE CRC-32 with register and result inverted; the empty input sums to 0 |
| Crc32.Hasher.constructor | xflate.go:107 | a fresh digest has seen nothing |
| Crc32.Hasher.Write | xflate.go:108-109 | the digest has seen exactly the earlier bytes followed by `p`, and its 32-bit register stays the CRC of them |
| Crc32.Hasher.Sum32 | xflate.go:127 | the sum is the CRC-32 of everything written |
| GzipHeader.Flags | xflate.go:178-187 | FEXTRA, FNAME and FCOMMENT are set exactly when extra is non-nil, the name and the comment are non-empty; every other bit is clear |
| GzipHeader.ExtraField | xflate.go:219-231 | refused (too large) exactly when longer than 0xFFFF; otherwise XLEN decoding to the length, followed by the bytes |
| GzipHeader.StringField | xflate.go:235-261 | refused exactly when a rune is 0 or above 0xFF; otherwise one non-zero byte per rune, equal to it, then a 0 |
| GzipHeader.EncodeHeader | xflate.go:170-216 | no error exactly when every present field is encodable; bytes start with ID1 ID2 CM, the flag byte, MTIME = uint32 of the Unix time, XFL 0 and OS |
| GzipHeader.EncodeHeaderLayout | xflate.go:170-216 | an encodable header is the 10-byte prefix followed by exactly the present fields, in the order extra, name, comment |
| GzipHeader.RefusedStringWritesNothing | xflate.go:196-213 | a refused name or comment contributes no byte, while the prefix and earlier fields stay emitted |
| GzipHeader.ZeroTimeMTime | xflate.go:188 | the zero time gives MTIME 0x886E0900, not 0 |
| GzipHeader.ReadStringField | xflate.go:246-259 | a zero-terminated Latin-1 field reads back as the string, leaving what follows |
| GzipHeader.ReadOptionalField | xflate.go:202-213 | a present or absent name/comment field reads back as the string |
| GzipHeader.ReadExtraField | xflate.go:219-231 | an extra field reads back as its bytes, leaving what follows |
| GzipHeader.ParseOptionalFields | xflate.go:196-213 | the optional fields announced by the flag byte read back as the header's fields |
| GzipHeader.HeaderRoundTrip | xflate.go:170-216 | parsing what the header writer emitted gives the header (MTIME truncated to 32 bits) and leaves the payload untouched |
| Output.Sink.constructor | xflate.go:79 | the buffered writer over the staged file starts empty |
| Output.Sink.Write | xflate.go:192 | a write stores the part of `p` that fits, reports how much, and fails exactly when not all of it fit |
| HeaderWriter.PrefixFailed | xflate.go:192-195 | a short write of the prefix ends the header with that error |
| HeaderWriter.ExtraWritten | xflate.go:196-201 | after the prefix, the extra field continues the header's emission, and its error ends it |
| HeaderWriter.NameWritten | xflate.go:202-207 | after the extra field, the name continues the emission, and its error ends it |
| HeaderWriter.CommentWritten | xflate.go:208-213 | after the name, the comment completes the emission |
| HeaderWriter.WriteBytes | xflate.go:219-231 | the writer receives what fits of the extra field's encoding; the error is the refusal or the short write |
| HeaderWriter.WriteString | xflate.go:235-261 | the writer receives what fits of the string field's encoding (nothing when refused); the error is the refusal or the short write |
| HeaderWriter.ConvertLatin1 | xflate.go:246-250 | the converted bytes are the Latin-1 encoding of the string, one byte per rune |
| HeaderWriter.WriteTerminated | xflate.go:251-260 | the writer receives what fits of the bytes and the NUL terminator; a short write is reported |
| HeaderWriter.PrefixBuffer | xflate.go:172-190 | the 10-byte buffer holds ID1, ID2, CM, the flag bits ORed in, little-endian MTIME, XFL 0 and OS |
| HeaderWriter.FlagByte | xflate.go:178-187 | FLG has exactly the FEXTRA, FNAME and FCOMMENT bits of the fields the header has, and no other |
| HeaderWriter.WriteGzipHeader | xflate.go:170-216 | the writer receives what fits of the header's emission; the error is the short write or the first encoding refusal; `n` counts the first write only |
| HeaderWriter.WriteExtraOnwards | xflate.go:196-215 | after a prefix that fitted, the writer receives what fits of the rest of the header's emission, with its error |
| HeaderWriter.WriteNameOnwards | xflate.go:202-215 | after the fields before the name, the writer receives what fits of the rest of the emission, with its error |
| HeaderWriter.WriteCommentField | xflate.go:208-215 | after the fields before the comment, the writer receives what fits of the comment, which completes the emission |
| Files.FileSystem.Stat | compress.go:44-47 | succeeds exactly when the path exists |
| Files.FileSystem.ReadAll | compress.go:83 | reading the opened source yields its contents |
| Files.FileSystem.CreateTemp | compress.go:64-67 | a new, empty staged file for the destination; no path changes |
| Files.FileSystem.WritePending | compress.go:100-102 | flushed bytes are appended to the staged file; no path changes |
| Files.FileSystem.CloseAtomicallyReplace | compress.go:104-106 | the destination holds exactly the staged bytes, in one step; nothing else changes |
| Files.FileSystem.Cleanup | compress.go:69 | the staged file is discarded; no path changes |
| Files.FileSystem.Remove | compress.go:113-117 | exactly that path is removed |
| Transcode.Admit | compress.go:44-67 | no error exactly when the source exists, stats and opens, the destination is free or forced, and the temporary file is created; a missing source or failing stat is StatInput, a failing open OpenInput, a failing TempFile CreateTemp; "output file already exists" exactly when unforced with an existing destination; no other error |
| Transcode.Promote | compress.go:100-117 | a Flush or Replace failure is reported and changes nothing; a failing stat of the destination, or a failing remove without keep, is reported after promotion; otherwise success, with the destination holding the data and the source gone exactly without keep; only the failing step is ever reported |
| Transcode.Run | compress.go:44-117 | each failing step is reported exactly when reached (missing source, stat, open, temporary file, the stage's failing phase, flush, replace, stat of the destination, remove without keep), and the outcome is exactly Admit's error, else the stage's failure, else Promote's outcome, so an unreached step is never reported; every error before the replace leaves the filesystem unchanged; existing destination refused without force; the destination changes only to the complete staged output; the source is removed only on success and only without keep |
| Transcode.Prepare | compress.go:44-67 | the imperative checks return Admit's error, change no path, and leave a staged file exactly on success |
| Transcode.Finish | compress.go:100-117 | flush, replace, stat and remove produce exactly Promote's outcome, with no staged file left (the deferred Cleanup) |
| Transcode.FaultFreeSucceeds | compress.go:23-132 | with no failing step, an existing source, a free or forced destination and a successful transformation, the operation succeeds |
| Transcode.TrimSuffix | decompress.go:57 | `strings.TrimSuffix`: removes one trailing occurrence of the suffix, and only if present |
| Transcode.HasPrefix | main.go:34 | `strings.HasPrefix`: the prefix fits and agrees with the string character by character |
| Transcode.HasSuffix | decompress.go:57 | `strings.HasSuffix`: the suffix fits and agrees with the end of the string character by character |
| Transcode.TrimTrailingSlashes | compress.go:79 | the path with exactly its trailing slashes removed |
| Transcode.LastElement | compress.go:79 | the slash-free tail of the path after its last slash |
| Transcode.BaseName | compress.go:79 | `filepath.Base`: "." for an empty path, "/" for a path of slashes, otherwise the last path element (the longest slash-free suffix once trailing slashes are trimmed) |
| Codecs.GzipWriter.constructor | compress.go:73-76 | a fresh gzip writer has the default header and has consumed nothing |
| Codecs.GzipWriter.Write | compress.go:83 | the writer consumes all of `p`, in order |
| Codecs.GzipWriter.Close | compress.go:96-98 | the encoding of everything consumed reaches the output, as far as it fits; it fails exactly when it does not fit |
| Codecs.XflateWriter.constructor | xflate.go:98-104 | a fresh xflate writer has consumed nothing |
| Codecs.XflateWriter.Write | xflate.go:108-109 | the writer consumes all of `p`, in order |
| Codecs.XflateWriter.Close | xflate.go:122-124 | the stream for everything consumed reaches the output, as far as it fits |
| Codecs.CopyInto | compress.go:83-86 | the whole input reaches the compressor, in order, whatever the chunking |
| Codecs.CopyFanOut | xflate.go:107-112 | the whole input reaches both the compressor and the hasher, in order; `written` is its length |
| Codecs.MultiWrite | xflate.go:108-109 | one write through the multi-writer reaches both the compressor and the hasher |
| Codecs.CopyOut | decompress.go:79-82 | the decompressed bytes reach the output in order, up to what fits; it fails exactly when not all fit |
| Compress.GzipHeaderFor | compress.go:78-81 | the gzip writer's header: name and modification time only when named, the name being the base name of the input |
| Compress.CompressStage | compress.go:73-98 | a failing phase (NewWriterLevel, copy, input Close, Flush, Close) is the error; without one, the gzip member of the input when it fits the room, otherwise a failure at Close |
| Compress.Compressing | compress.go:73-98 | the imperative sequence from NewWriterLevel to Close yields CompressStage's result, and the buffer holds the member |
| Compress.CompressFile | compress.go:23-132 | the filesystem and error are exactly Run's, with output `filename + suffix`; no staged file remains |
| Decompress.OutputPath | decompress.go:57 | with the suffix, the output plus the suffix is the input; without it, the output is the input |
| Decompress.DecompressStage | decompress.go:74-90 | a bad header or a failing NewReader fails there; a failing copy, a corrupt payload or a payload that does not fit fails at the copy; after a copy that fitted, a failing reader Close or input Close is the error, and otherwise the result is the decoded payload |
| Decompress.Decompressing | decompress.go:74-90 | the imperative sequence from NewReader to the input Close yields DecompressStage's result, and the buffer holds the payload |
| Decompress.DecompressFile | decompress.go:24-122 | the filesystem and error are exactly Run's, with output `TrimSuffix(filename, suffix)`; no staged file remains |
| Decompress.DoubleSuffix | decompress.go:57 | only the last suffix goes: "a.gz.gz" decompresses to "a.gz" |
| Decompress.MissingSuffixRefused | decompress.go:45-63 | without the suffix and without force, once the source stats and opens, the call is refused and nothing changes |
| Decompress.MissingSuffixForcedLosesFile | decompress.go:57-109 | without the suffix, with force and without keep, a successful call leaves no file at that path and reports success |
| Xflate.XflateHeader | xflate.go:82-89 | the comment "Encoded using XFLATE" and OS unknown always; the base name and modification time only when named |
| Xflate.Trailer | xflate.go:126-134 | eight bytes: the CRC-32 of the input, then its length modulo 2^32, each little-endian |
| Xflate.XflateStage | xflate.go:81-134 | an unencodable header, one that does not fit, or a failing header write fails at the header; after it, a failing phase is the error, and otherwise the result is AfterHeader's; success yields exactly the header, the xflate stream and the trailer, within the room |
| Xflate.AfterHeader | xflate.go:95-134 | a failing phase from NewWriter to Close is the error; otherwise the first part that does not fit or whose write fails (the stream at Close, the CRC32 word, the ISIZE word) fails, and when all fit the result is the header, the stream and the trailer |
| Xflate.XflateCompressing | xflate.go:81-134 | the imperative sequence from writeGzipHeader to the size footer yields XflateStage's result, and the buffer holds the member |
| Xflate.XflatePayload | xflate.go:95-134 | the sequence from NewWriter to the size footer yields AfterHeader's result for the header already written |
| Xflate.XflateStream | xflate.go:98-124 | the first failing step from NewWriter to Close is reported; otherwise the stream reaches the buffer, the checksum is the CRC-32 of the input and the count is its length |
| Xflate.WriteFooter | xflate.go:126-134 | the checksum and then `uint32(written)` are appended little-endian; the phase reported is that of the first that does not fit or whose write fails |
| Xflate.XflateCompressFile | xflate.go:30-168 | the filesystem and error are exactly Run's, with output `filename + suffix`; no staged file remains |
| Xflate.MemberLayout | xflate.go:81-134 | for any header the stage accepts (the xflate header among them), a promoted member parses back as that header, followed by the stream and by the CRC-32 and length of the input |
| Xflate.UnnamedHeader | xflate.go:82-89 | without a name the header is encodable, 31 bytes long, with MTIME 0x886E0900 |
| Xflate.NonLatin1NameRefused | xflate.go:86-93 | a base name outside Latin-1 fails the header write when named |
| Cli.GetLevel | main.go:141-164 | the lowest level flag that is set, between 1 and 9; 5 when none is set |
| Cli.NormalisedSuffix | main.go:118-123 | the result starts with "."; a suffix already starting with "." is kept, any other gets "." in front |
| Cli.NormalisedSuffixIdempotent | main.go:118-123 | normalising twice equals normalising once |
| Cli.ChosenSuffix | main.go:118-123 | the suffix given to every command: the normalised Suffix flag when given, otherwise ".gz"; it starts with "." |
| Cli.ResolveNamed | main.go:175-181 | refused exactly when both --name and --no-name are given; otherwise the name is stored exactly when --no-name is absent |
| Cli.CompressCommand | main.go:191-197 | xflate compression exactly when --rsyncable, otherwise plain compression, with the level, keep, force and name settings passed through |
| Cli.FilenameFrom | main.go:32-38 | the last argument becomes the filename and leaves the list exactly when it does not start with "-"; otherwise the filename stays /dev/stdin |
| Cli.Decision | main.go:88-135 | version, then usage, then the refusals of stdout, list, recursive and /dev/ paths in that order; past them a command runs unless compressing with both --name and --no-name; test, then decompress with keep and force, then the compress command; the suffix is the normalised flag or ".gz" |
| Cli.MainAction | main.go:30-135 | a file is processed only when it is the last argument and at least one argument (the program name) precedes it |
| Cli.StdinRefused | main.go:113-116 | without a filename argument, the default /dev/stdin is refused as a device |
| Cli.ProgramNameAloneShowsUsage | main.go:98-101 | run with the program name alone, main prints usage |
| Cli.Invocation.constructor | main.go:21-22 | the package starts with filename /dev/stdin and suffix .gz |
| Cli.Invocation.TakeFilename | main.go:32-38 | the last argument moves into `filename` exactly when it does not start with "-" |
| Cli.Invocation.ApplySuffix | main.go:118-123 | a non-empty suffix flag replaces the suffix, normalised; an empty one keeps it |
| Cli.Invocation.CompressHandler | main.go:166-198 | refused on --name with --no-name; otherwise the compress command with the resolved name setting |
| Cli.Invocation.Launch | main.go:30-135 | main's action from its initial state equals MainAction of the flags and arguments |
| RoundTrip.CompressThenDecompress | compress.go:23-132 | when the reader inverts the writer and nothing fails, compressing then decompressing without keep restores the filesystem exactly |

## Left out

- Logging: the verbose messages, the DEBUG lines, the elapsed time and the `humanize` sizes produce output only. They are not modelled.
- The command-line parser (gocmd) is not modelled. Its result is the `Cli.Flags` record. The Quiet and Filename flags are never read, so they are omitted.
- Printing the version, the licence and the usage text is modelled as the `ShowVersion`/`ShowUsage` actions. `log.Fatal` is modelled as `Exit` with the reason.
- `TestFile` (test.go) is not part of this model. main's dispatch to it is modelled (`Cli.Command.TestFile`).
- The codec internals are not modelled. These are the DEFLATE/gzip writer and reader of klauspost/compress and the xflate writer of dsnet/compress. They are functions in `Transcode.Env`. Their own promises are not proved here: that the reader inverts the writer, that xflate output is decodable, and the 64 KiB sync points (`ChunkSize: 1 << 16`). `RoundTrip.CompressThenDecompress` takes the first as a hypothesis.
- Codecs.GzipWriter.Close: the gzip library writer's own header rules live inside the opaque encoder `Env.gzipEncode`. These include writing MTIME only for a time after the Unix epoch (0 for the zero time) and refusing a Name outside Latin-1, the rule `writeString` applies in xflate mode. In plain mode such a refusal is only a stage fault of the model, not tied to the name.
- Codecs.GzipWriter.Close and Codecs.XflateWriter.Close emit the whole encoding at Close, into a buffer with a fixed room. Where exactly a full device surfaces is not modelled: during io.Copy, at Flush or at Close. Every failure before promotion has the same effect on the filesystem, so only the reported step can differ.
- Decompress.DecompressStage: a corrupt payload is refused as a whole at the copy. How many bytes io.Copy already wrote before the error is not modelled; they are discarded with the staged file either way.
- Codecs.CopyFanOut: io.MultiWriter failing part-way is not modelled, because the hasher never fails and compressor failures are stage faults.
- At most one operating-system step fails per run (`Env.fault`). A source that vanishes between steps, and concurrent changes to the filesystem, are not modelled.
- renameio's temporary-file naming, directories, fsync and permissions are not modelled. Neither is the deferred second Close of the input file, whose error is ignored.
- The bufio buffering of input and output is not modelled. The copy loops move 4096-byte pieces, and the output buffer is written through.
- Go strings are byte sequences iterated as UTF-8 runes; here a string is a sequence of runes. Invalid UTF-8 (which Go reads as U+FFFD, above 0xFF, and therefore refuses) is not modelled separately.
- Error messages and wrapping (`errors.Wrap`) are reduced to the step that failed (`Transcode.Step`).

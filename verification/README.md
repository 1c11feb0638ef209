# defmt-print stream driver, modelled in Dafny

`defmt-print` reads defmt-encoded log frames from standard input, decodes them
against the symbol table taken from the firmware's ELF file, and hands each
frame to the logger. It joins each frame with its source location when
locations are available. This project models the driver in `main`:

- **The location-coverage gate.** Location information is kept only if the ELF
  file gives a location for every index of the symbol table. Otherwise it is
  dropped for the whole run, before any byte is decoded.
- **The read/append/decode/compact loop.**
  - Each read of up to 1024 bytes lands in a fixed read buffer and is appended
    to the growable `frames` buffer.
  - The inner loop then decodes frames from the front of that buffer.
  - Each decoded frame is joined with its location and logged. Its bytes are
    then removed by `rotate_left(consumed)` followed by
    `truncate(len - consumed)`.
  - `UnexpectedEof` goes back to reading.
  - `Malformed` reports the whole buffer and ends the program with an error.
- **The location join.** The frame's location is looked up. The file path is
  made relative to the current directory when that directory is a
  component-wise prefix of it. The result is a `(file, line, module)` triple
  that is all-`None` or all-`Some`.

Modules:

- `Wrappers`: `Option`.
- `Paths`: paths as sequences of components, `strip_prefix`, relativisation.
- `Slices`: `rotate_left` and `truncate` on sequences, and the fact that
  compaction drops a prefix.
- `Decoding`: the external decoder as a function-valued parameter with its
  contract. `Drain` is the specification of the inner loop, with its lemmas.
- `Locations`: the coverage gate and the location join.
- `Printer`: the driver state as a class. It holds:
  - the 1024-byte read buffer, as an `array`;
  - the `frames` buffer, as a `seq` field the methods reassign;
  - the records logged so far.

  `Session` is the specification of the outer loop over a finite sequence of
  read events. The class methods are proved against `Drain` and `Session`.

The decoder is a parameter. It must return, on success, a frame whose index is
in the table and a consumed count with `1 <= consumed <= len`
(`ValidDecoder`). The driver's own code only needs `consumed <= len`, since
`rotate_left` and the subtraction would panic otherwise. The lower bound 1 is
what makes the inner loop terminate: with `consumed == 0` the source would
decode the same frame forever.

End of input has no branch of its own: a zero-byte
read appends nothing and the loop reads again. So there is no "unterminated
frame at end of input" error and no clean exit. A session whose events run
out is modelled as `Waiting`.

## Model

| member | source | states |
|---|---|---|
| Locations.CoverageGate | print/src/main.rs:34-39 | the location map is kept (unchanged) iff every table index is one of its keys, and dropped (`None`) otherwise |
| Locations.GateAllOrNothing | print/src/main.rs:34-39 | if a single table index lacks a location, every frame, whatever its index, is logged with no file, line or module for the whole run |
| Locations.GateExample | print/src/main.rs:34-39 | concrete case: table {1,2,3} with locations for 1 and 2 only gives all-`None` metadata for all three indices |
| Locations.GateLookupSucceeds | print/src/main.rs:55-57 | when the gate kept the map, the index of any frame the decoder returns is a key of the map, so the `locs[&frame.index()]` lookup cannot panic |
| Locations.Metadata | print/src/main.rs:57-70 | the `(file, line, module)` triple is all-`None` iff the map was dropped and all-`Some` otherwise; the file is the path with the current directory stripped when that directory is a prefix of it and the full path otherwise; line and module are the location's own |
| Locations.JoinLocation | print/src/main.rs:57-70 | the imperative join (three mutable locals assigned conditionally) yields exactly `Metadata` of the frame's index: all three `None` without locations, all three `Some` with them |
| Paths.StripPrefix | print/src/main.rs:61 | succeeds iff the base is a component-wise prefix of the path, and then the base followed by the result is the path |
| Paths.StripPrefixRoundTrip | print/src/main.rs:61 | stripping `base` from `base + rest` gives back exactly `rest` |
| Paths.Relativize | print/src/main.rs:61-66 | with the current directory as a prefix, the directory followed by the result is the file path; otherwise the result is the file path unchanged |
| Paths.RelativizeExamples | print/src/main.rs:61-66 | concrete cases: a file under the current directory becomes its remaining components, a file elsewhere is kept whole |
| Slices.RotateLeft | print/src/main.rs:81 | the result has the same length; its first `len - mid` elements are the input from index `mid` on, and its last `mid` elements are the first `mid` of the input, in order |
| Slices.Truncate | print/src/main.rs:82 | the result is the prefix of the input of length `len`, or the whole input when `len` is not below its length |
| Slices.CompactionDropsPrefix | print/src/main.rs:80-82 | rotating left by `c` and truncating to `len - c` leaves exactly the input without its first `c` elements |
| Decoding.Drain | print/src/main.rs:52-90 | the frames the inner loop decodes from a buffer all have indices in the table |
| Decoding.DrainStops | print/src/main.rs:84-88 | the inner loop waits for input iff the decoder reports `UnexpectedEof` on the remaining buffer, and fails iff it reports `Malformed`; on failure it reports that whole remaining buffer |
| Decoding.DrainNoLoss | print/src/main.rs:50-82 | the bytes of the decoded frames, concatenated in order and followed by the remaining buffer, are exactly the buffer the loop started with |
| Decoding.DrainInOrder | print/src/main.rs:53-82 | frame `i` is what the decoder returns on the bytes left once frames `0..i` are removed, with its consumed count equal to the length of its bytes |
| Decoding.DrainFramesWellFormed | print/src/main.rs:53-54 | every decoded frame has an index in the table and consumed at least one byte |
| Decoding.DrainStep | print/src/main.rs:53-82 | one successful decode appends one frame, taking the consumed prefix, and the loop continues on the rest of the buffer |
| Decoding.DrainAppend | print/src/main.rs:50-84 | for a decoder that does not look past a complete frame, draining a buffer with more bytes appended gives the frames of the buffer alone, followed by the drain of the bytes it stopped at plus the new bytes |
| Decoding.ConsumedAppend | print/src/main.rs:80-82 | the bytes taken by two runs of frames are the bytes of the first run followed by those of the second |
| Decoding.IndicesInAppend | print/src/main.rs:53-57 | joining two runs of frames with table indices gives a run with table indices |
| Printer.Session | print/src/main.rs:47-91 | over a finite sequence of read events, the outer loop performs at most one read per event and every frame it decodes has a table index |
| Printer.SessionEnds | print/src/main.rs:47-88 | a session waits only after reading every event, all chunks; otherwise it stopped at a read error or at a chunk after which the decoder reported `Malformed` on the remaining buffer, which it reports whole; if it waits after at least one read, the decoder reports `UnexpectedEof` on the remaining buffer |
| Printer.SessionNoLoss | print/src/main.rs:48-82 | the bytes of all decoded frames in order, followed by the current buffer, are the starting buffer followed by all bytes read |
| Printer.SessionIsOneDrain | print/src/main.rs:47-53 | for a decoder that does not look past a complete frame, a session that ends waiting after at least one read has decoded the same frames and kept the same buffer as one drain of everything it read |
| Printer.MalformedPersists | print/src/main.rs:52-88 | for a decoder that neither looks past a complete frame nor recovers from malformed data, a drain that fails on a buffer also fails on that buffer with more bytes appended |
| Printer.OneDrainSessionWaits | print/src/main.rs:47-53 | the converse of SessionIsOneDrain: for reads that all succeed, when one drain of everything read waits for input, the session that read it chunk by chunk waits as well |
| Printer.ChunkingDoesNotMatter | print/src/main.rs:47-88 | for reads that all succeed and a decoder that neither looks past a complete frame nor recovers from malformed data, a session over several reads waits for input iff one read of all their bytes does, and then both decoded the same frames and kept the same bytes buffered |
| Printer.SessionStep | print/src/main.rs:47-88 | one turn of the outer loop: a read error ends the session, a chunk is drained, and `Malformed` ends it with the remaining buffer reported |
| Printer.EmissionsAppend | print/src/main.rs:57-78 | the log records of two runs of frames are the records of the first followed by those of the second |
| Printer.RecordFrame | print/src/main.rs:54-82 | handling one frame keeps the driver invariant: its bytes move from the front of the buffer to the decoded history, and its log record is the next one |
| Printer.StreamPrinter.constructor | print/src/main.rs:34-42 | the gate is decided once, at startup, from the table and the ELF locations; the read buffer holds 1024 bytes, and the frame buffer and the log start empty |
| Printer.StreamPrinter.Read | print/src/main.rs:41-48 | a read of at most 1024 bytes puts the chunk at the front of the read buffer and returns its length `n <= 1024` |
| Printer.StreamPrinter.Ingest | print/src/main.rs:50 | the frame buffer becomes the old buffer followed by `buf[..n]`; nothing else changes |
| Printer.StreamPrinter.HandleFrame | print/src/main.rs:54-83 | after a successful decode, the frame is logged with its joined location and the frame buffer becomes the old one without its first `consumed` bytes |
| Printer.StreamPrinter.DrainFrames | print/src/main.rs:52-90 | the imperative inner loop ends with exactly the buffer, the stop reason and the frames of `Drain`, and logs one record per frame in order |
| Printer.StreamPrinter.ReadAndDrain | print/src/main.rs:48-90 | one read followed by the inner loop: the buffer, stop reason and frames are those of `Drain` on the old buffer with the chunk appended |
| Printer.StreamPrinter.Run | print/src/main.rs:47-91 | the imperative outer loop over the read events ends with the status, buffer, decoded frames and log records that `Session` specifies |
| Printer.PrintLogs | print/src/main.rs:34-91 | `main` from the gate on: the run ends as `Session` from an empty buffer says, and the log is one record per decoded frame, joined with the gated locations |

## Left out

- Reading standard input and locking it are not modelled. Each read is an event in a finite sequence: a chunk of at most 1024 bytes, or a read error.
- The source's outer `loop` never ends on its own. The model runs it over finitely many read events and reports `Waiting` after the last one.
- The frame decoder (`defmt_decoder::decode`) is a parameter with a contract, not an implementation. `consumed >= 1` is assumed of it; with 0 the source would loop forever.
- Printer.MalformedPersists, Printer.SessionIsOneDrain, Printer.OneDrainSessionWaits and Printer.ChunkingDoesNotMatter hold only for decoders whose success on a buffer is unchanged by appending bytes (`PrefixStable`). All but SessionIsOneDrain also need malformed data to stay malformed when bytes are appended (`MalformedStable`). The source promises neither. Without `MalformedStable` the split session can fail where the whole stream decodes: a decoder that reports one lone byte as malformed fails on the reads `[1]`, `[2]` but decodes `[1, 2]` as one frame.
- Printer.ChunkingDoesNotMatter compares only sessions that wait for input. When both fail, it does not relate the bytes they report.
- Reading the ELF file and extracting the table and locations are not modelled (`fs::read`, `defmt_elf2table::parse` and `get_locations`). The table is a set of indices and the locations a map. Their error exits (`?`, ".defmt data not found") are not modelled.
- The current directory is a parameter. The error exit of `env::current_dir()?` before the first read is not modelled.
- Logging is not modelled. This covers the logger initialisation, the incomplete-location warning, `log_defmt` and the hexadecimal error report. It is represented by the sequence of log records `emitted`, each a frame with its metadata. On `Malformed` the reported bytes are the `reported` buffer of the status.
- Locations.Metadata: the file is a path (a sequence of components) rather than the string from `display().to_string()`, and the line is passed through without the `as u32` cast. The width of `loc.line` is not known.
- Paths.StripPrefix: paths are compared component by component with no normalisation of `.`, `..` or repeated separators.
- Command-line parsing and `version()` are not modelled.
- The `u64` conversion of table indices in the gate is not modelled. Indices are unbounded naturals in both the table and the location map.

/**
 * The printer's driver: read a chunk from standard input into a fixed read
 * buffer, append it to the frame buffer, and decode, join, log and compact
 * until the decoder needs more bytes or reports malformed data.
 */
module Printer {
  import opened Wrappers
  import opened Paths
  import opened Slices
  import opened Decoding
  import opened Locations

  /** Size of the buffer each read of standard input fills. */
  const READ_BUFFER_SIZE: nat := 1024

  /** What one read of standard input returns: some bytes (possibly none) or an I/O error. */
  datatype ReadEvent = Chunk(bytes: seq<byte>) | ReadError

  /** How the session ended: still waiting for input, failed to read, or stopped on malformed data. */
  datatype Status = Waiting | IoFailed | DecodeFailed(reported: seq<byte>)

  /** A frame as handed to the logger, with its location metadata. */
  datatype Emission = Emission(frame: Frame, meta: Meta)

  /** The outcome of a session: frames decoded, bytes still buffered, status, and how many reads it took. */
  datatype SessionOutcome = SessionOutcome(frames: seq<Decoded>, rest: seq<byte>, status: Status, readCount: nat)

  /** The bytes of a read. */
  function BytesOf(e: ReadEvent): seq<byte>
  {
    match e
    case Chunk(bytes) => bytes
    case ReadError => []
  }

  /** All bytes the reads in `events` delivered, in order. */
  function Received(events: seq<ReadEvent>): seq<byte>
  {
    if events == [] then [] else BytesOf(events[0]) + Received(events[1..])
  }

  /** The log records for the frames `ds`: each frame with its location metadata. */
  function Emissions(ds: seq<Decoded>, table: Table, locs: Option<LocationMap>, cwd: Path): seq<Emission>
    requires IndicesIn(ds, table.indices)
    requires locs.Some? ==> Covers(table, locs.value)
  {
    if ds == [] then []
    else [Emission(ds[0].frame, Metadata(ds[0].frame.index, locs, cwd))] + Emissions(ds[1..], table, locs, cwd)
  }

  lemma {:induction false} EmissionsAppend(a: seq<Decoded>, b: seq<Decoded>, table: Table, locs: Option<LocationMap>, cwd: Path)
    requires IndicesIn(a, table.indices) && IndicesIn(b, table.indices)
    requires locs.Some? ==> Covers(table, locs.value)
    ensures IndicesIn(a + b, table.indices)
    ensures Emissions(a + b, table, locs, cwd) == Emissions(a, table, locs, cwd) + Emissions(b, table, locs, cwd)
  {
    IndicesInAppend(a, b, table.indices);
    if a == [] {
      assert a + b == b;
    } else {
      assert (a + b)[1..] == a[1..] + b;
      EmissionsAppend(a[1..], b, table, locs, cwd);
    }
  }

  /**
   * The outer loop run over the reads `events`, starting from buffer `buf`: each
   * chunk is appended and drained; a read error or malformed data ends the session.
   */
  function Session(decode: Decoder, table: Table, buf: seq<byte>, events: seq<ReadEvent>): (s: SessionOutcome)
    requires ValidDecoder(decode, table)
    ensures s.readCount <= |events|
    ensures IndicesIn(s.frames, table.indices)
    decreases |events|
  {
    if events == [] then SessionOutcome([], buf, Waiting, 0)
    else match events[0]
      case ReadError => SessionOutcome([], buf, IoFailed, 1)
      case Chunk(bytes) =>
        var d := Drain(decode, table, buf + bytes);
        if d.stop.Fatal? then SessionOutcome(d.frames, d.rest, DecodeFailed(d.stop.reported), 1)
        else
          var s := Session(decode, table, d.rest, events[1..]);
          IndicesInAppend(d.frames, s.frames, table.indices);
          SessionOutcome(d.frames + s.frames, s.rest, s.status, 1 + s.readCount)
  }

  /**
   * How a session ends: it reads every event and then waits, or it stops at a
   * read error, or at the read after which the decoder reported malformed
   * data, and then reports the whole buffer. Reads before the last one were
   * all chunks.
   */
  lemma {:induction false} SessionEnds(decode: Decoder, table: Table, buf: seq<byte>, events: seq<ReadEvent>)
    requires ValidDecoder(decode, table)
    ensures var s := Session(decode, table, buf, events);
      s.status == Waiting ==> s.readCount == |events| && forall i :: 0 <= i < |events| ==> events[i].Chunk?
    ensures var s := Session(decode, table, buf, events);
      s.status != Waiting ==> 0 < s.readCount && forall i :: 0 <= i < s.readCount - 1 ==> events[i].Chunk?
    ensures var s := Session(decode, table, buf, events);
      s.status == IoFailed ==> events[s.readCount - 1] == ReadError
    ensures var s := Session(decode, table, buf, events);
      s.status.DecodeFailed? ==> events[s.readCount - 1].Chunk? && decode(s.rest, table) == Malformed && s.status.reported == s.rest
    ensures var s := Session(decode, table, buf, events);
      s.status == Waiting && events != [] ==> decode(s.rest, table) == UnexpectedEof
    decreases |events|
  {
    if events != [] && events[0].Chunk? {
      var d := Drain(decode, table, buf + events[0].bytes);
      DrainStops(decode, table, buf + events[0].bytes);
      if !d.stop.Fatal? {
        SessionEnds(decode, table, d.rest, events[1..]);
        var s' := Session(decode, table, d.rest, events[1..]);
        assert forall i :: 1 <= i < |events| ==> events[i] == events[1..][i - 1];
        if s'.status == Waiting && events[1..] == [] {
          assert s'.rest == d.rest;
        }
      }
    }
  }

  /** `s` preceded by `k` reads that decoded the frames `prefix`. */
  function Then(prefix: seq<Decoded>, k: nat, s: SessionOutcome): SessionOutcome
  {
    SessionOutcome(prefix + s.frames, s.rest, s.status, k + s.readCount)
  }

  /**
   * No byte is lost, duplicated or reordered over a session: the bytes of all
   * decoded frames, followed by what stays buffered, are the starting buffer
   * followed by everything the session read.
   */
  lemma {:induction false} SessionNoLoss(decode: Decoder, table: Table, buf: seq<byte>, events: seq<ReadEvent>)
    requires ValidDecoder(decode, table)
    ensures var s := Session(decode, table, buf, events);
      Consumed(s.frames) + s.rest == buf + Received(events[..s.readCount])
    decreases |events|
  {
    var s := Session(decode, table, buf, events);
    if events != [] {
      assert events[..1][1..] == [];
      if events[0].Chunk? {
        var d := Drain(decode, table, buf + events[0].bytes);
        DrainNoLoss(decode, table, buf + events[0].bytes);
        if !d.stop.Fatal? {
          var s' := Session(decode, table, d.rest, events[1..]);
          var later := events[1..][..s'.readCount];
          SessionNoLoss(decode, table, d.rest, events[1..]);
          assert events[..s.readCount][0] == events[0] && events[..s.readCount][1..] == later;
          calc {
            Consumed(s.frames) + s.rest;
            { ConsumedAppend(d.frames, s'.frames); }
            (Consumed(d.frames) + Consumed(s'.frames)) + s'.rest;
            { AppendAssoc(Consumed(d.frames), Consumed(s'.frames), s'.rest); }
            Consumed(d.frames) + (d.rest + Received(later));
            { AppendAssoc(Consumed(d.frames), d.rest, Received(later)); }
            (buf + events[0].bytes) + Received(later);
            { AppendAssoc(buf, events[0].bytes, Received(later)); }
            buf + (events[0].bytes + Received(later));
            buf + Received(events[..s.readCount]);
          }
        }
      }
    }
  }

  /**
   * A session that ends waiting for input has decoded exactly the frames, and
   * buffered exactly the bytes, that draining everything it read in one go
   * gives. This holds for decoders that cannot see past the end of a frame.
   */
  lemma {:induction false} SessionIsOneDrain(decode: Decoder, table: Table, buf: seq<byte>, events: seq<ReadEvent>)
    requires ValidDecoder(decode, table) && PrefixStable(decode, table)
    requires events != []
    requires Session(decode, table, buf, events).status == Waiting
    ensures var s := Session(decode, table, buf, events);
      var whole := Drain(decode, table, buf + Received(events));
      whole.stop == AwaitInput && whole.frames == s.frames && whole.rest == s.rest
    decreases |events|
  {
    var s := Session(decode, table, buf, events);
    match events[0]
    case ReadError =>
      // The session would have ended with a read error.
    case Chunk(bytes) =>
      var d := Drain(decode, table, buf + bytes);
      var rest := events[1..];
      var s' := Session(decode, table, d.rest, rest);
      assert !d.stop.Fatal? && s == Then(d.frames, 1, s');
      if rest == [] {
        assert s' == SessionOutcome([], d.rest, Waiting, 0);
        assert Received(events) == bytes + [];
        assert buf + Received(events) == buf + bytes;
        assert d.frames + [] == d.frames;
      } else {
        SessionIsOneDrain(decode, table, d.rest, rest);
        DrainAppend(decode, table, buf + bytes, Received(rest));
        AppendAssoc(buf, bytes, Received(rest));
      }
  }

  /**
   * Malformed data stays malformed however many bytes follow it: when the
   * loop fails on a buffer, it fails on that buffer with more bytes appended.
   */
  lemma MalformedPersists(decode: Decoder, table: Table, buf: seq<byte>, more: seq<byte>)
    requires ValidDecoder(decode, table) && PrefixStable(decode, table) && MalformedStable(decode, table)
    ensures Drain(decode, table, buf).stop.Fatal? ==> Drain(decode, table, buf + more).stop.Fatal?
  {
    var d := Drain(decode, table, buf);
    DrainAppend(decode, table, buf, more);
    DrainStops(decode, table, buf);
    if d.stop.Fatal? {
      assert decode(Extend(d.rest, more), table) == Malformed;
    }
  }

  /**
   * The converse of SessionIsOneDrain: when everything read, drained in one
   * go, leaves the loop waiting for input, so does the session that read it
   * chunk by chunk.
   */
  lemma {:induction false} OneDrainSessionWaits(decode: Decoder, table: Table, buf: seq<byte>, events: seq<ReadEvent>)
    requires ValidDecoder(decode, table) && PrefixStable(decode, table) && MalformedStable(decode, table)
    requires forall i :: 0 <= i < |events| ==> events[i].Chunk?
    requires Drain(decode, table, buf + Received(events)).stop == AwaitInput
    ensures Session(decode, table, buf, events).status == Waiting
    decreases |events|
  {
    if events != [] {
      var bytes := events[0].bytes;
      var d := Drain(decode, table, buf + bytes);
      var rest := events[1..];
      assert Received(events) == bytes + Received(rest);
      AppendAssoc(buf, bytes, Received(rest));
      MalformedPersists(decode, table, buf + bytes, Received(rest));
      DrainAppend(decode, table, buf + bytes, Received(rest));
      assert forall i :: 0 <= i < |rest| ==> rest[i] == events[i + 1];
      OneDrainSessionWaits(decode, table, d.rest, rest);
    }
  }

  /**
   * Chunking does not matter: for a decoder that cannot see past the end of a
   * frame and whose malformed data stays malformed, a session over several
   * reads waits for input exactly when a session whose single read delivers
   * all those bytes at once does, and then both have decoded the same frames
   * and kept the same bytes buffered.
   */
  lemma ChunkingDoesNotMatter(decode: Decoder, table: Table, buf: seq<byte>, events: seq<ReadEvent>)
    requires ValidDecoder(decode, table) && PrefixStable(decode, table) && MalformedStable(decode, table)
    requires events != []
    requires forall i :: 0 <= i < |events| ==> events[i].Chunk?
    ensures var s := Session(decode, table, buf, events);
      var one := Session(decode, table, buf, [Chunk(Received(events))]);
      && (s.status == Waiting <==> one.status == Waiting)
      && (s.status == Waiting ==> one == SessionOutcome(s.frames, s.rest, Waiting, 1))
  {
    var s := Session(decode, table, buf, events);
    var whole := Drain(decode, table, buf + Received(events));
    assert [Chunk(Received(events))][1..] == [];
    assert whole.frames + [] == whole.frames;
    if s.status == Waiting {
      SessionIsOneDrain(decode, table, buf, events);
    }
    if whole.stop == AwaitInput {
      OneDrainSessionWaits(decode, table, buf, events);
    }
  }

  /**
   * One turn of the outer loop, seen from a session already `k` reads and
   * the frames `batch` in: a read error ends it, a chunk is drained, and
   * malformed data ends it with the undrained buffer reported.
   */
  lemma SessionStep(decode: Decoder, table: Table, buf: seq<byte>, events: seq<ReadEvent>, batch: seq<Decoded>, k: nat)
    requires ValidDecoder(decode, table)
    requires events != []
    ensures events[0].ReadError? ==>
      Then(batch, k, Session(decode, table, buf, events)) == SessionOutcome(batch, buf, IoFailed, k + 1)
    ensures events[0].Chunk? ==>
      var d := Drain(decode, table, buf + events[0].bytes);
      if d.stop.Fatal? then
        Then(batch, k, Session(decode, table, buf, events)) == SessionOutcome(batch + d.frames, d.rest, DecodeFailed(d.stop.reported), k + 1)
      else
        Then(batch, k, Session(decode, table, buf, events)) == Then(batch + d.frames, k + 1, Session(decode, table, d.rest, events[1..]))
  {
    assert batch + [] == batch;
    if events[0].Chunk? {
      var d := Drain(decode, table, buf + events[0].bytes);
      if !d.stop.Fatal? {
        AppendAssoc(batch, d.frames, Session(decode, table, d.rest, events[1..]).frames);
      }
    }
  }

  /**
   * Recording one more decoded frame keeps the printer's invariant: its bytes
   * move from the front of the buffer to the decoded history, and its log
   * record is the next one.
   */
  lemma RecordFrame(table: Table, locs: Option<LocationMap>, cwd: Path, decoded: seq<Decoded>,
                    frames: seq<byte>, received: seq<byte>, emitted: seq<Emission>, frame: Frame, consumed: nat)
    requires consumed <= |frames| && frame.index in table.indices
    requires locs.Some? ==> Covers(table, locs.value)
    requires IndicesIn(decoded, table.indices)
    requires Consumed(decoded) + frames == received
    requires emitted == Emissions(decoded, table, locs, cwd)
    ensures var decoded' := decoded + [Decoded(frame, frames[..consumed])];
      && IndicesIn(decoded', table.indices)
      && Consumed(decoded') + frames[consumed..] == received
      && Emissions(decoded', table, locs, cwd) == emitted + [Emission(frame, Metadata(frame.index, locs, cwd))]
  {
    var record := Decoded(frame, frames[..consumed]);
    assert [record][1..] == [];
    assert IndicesIn([record], table.indices);
    EmissionsAppend(decoded, [record], table, locs, cwd);
    ConsumedAppend(decoded, [record]);
    assert Consumed([record]) == frames[..consumed] + [];
    AppendAssoc(Consumed(decoded), frames[..consumed], frames[consumed..]);
    assert frames[..consumed] + frames[consumed..] == frames;
  }

  /**
   * The printer: the decoder and the tables fixed at startup, the read buffer
   * standard input is read into, and the growing buffer of received but not
   * yet decoded bytes. `received` and `decoded` are the history the
   * invariant speaks about; `emitted` is what was handed to the logger.
   */
  class StreamPrinter {
    const decode: Decoder
    const table: Table
    const locs: Option<LocationMap>
    const cwd: Path
    const buf: array<byte>
    var frames: seq<byte>
    var emitted: seq<Emission>
    ghost var received: seq<byte>
    ghost var decoded: seq<Decoded>

    /**
     * The decoded frames' bytes followed by the buffer are everything received,
     * and one log record went out per decoded frame, in order.
     */
    ghost predicate Valid()
      reads this
    {
      && ValidDecoder(decode, table)
      && buf.Length == READ_BUFFER_SIZE
      && (locs.Some? ==> Covers(table, locs.value))
      && IndicesIn(decoded, table.indices)
      && Consumed(decoded) + frames == received
      && emitted == Emissions(decoded, table, locs, cwd)
    }

    /**
     * Startup: keep the location table only if it covers the symbol table,
     * allocate the read buffer, start with an empty frame buffer.
     */
    constructor (decode: Decoder, table: Table, elfLocs: LocationMap, cwd: Path)
      requires ValidDecoder(decode, table)
      ensures Valid()
      ensures this.decode == decode && this.table == table && this.cwd == cwd
      ensures locs == CoverageGate(table, elfLocs)
      ensures frames == [] && emitted == [] && received == [] && decoded == []
      ensures fresh(buf)
    {
      this.decode := decode;
      this.table := table;
      this.cwd := cwd;
      locs := CoverageGate(table, elfLocs);
      buf := new byte[READ_BUFFER_SIZE];
      frames := [];
      emitted := [];
      received := [];
      decoded := [];
    }

    /** A read of standard input: the chunk lands at the front of the read buffer and its length is returned. */
    method Read(chunk: seq<byte>) returns (n: nat)
      requires Valid()
      requires |chunk| <= READ_BUFFER_SIZE
      modifies buf
      ensures Valid()
      ensures n == |chunk| && n <= buf.Length && buf[..n] == chunk
    {
      forall i | 0 <= i < |chunk| {
        buf[i] := chunk[i];
      }
      n := |chunk|;
    }

    /** Appends the first `n` bytes of the read buffer to the frame buffer. */
    method Ingest(n: nat)
      requires Valid()
      requires n <= buf.Length
      modifies this
      ensures Valid()
      ensures frames == old(frames) + buf[..n]
      ensures received == old(received) + buf[..n]
      ensures decoded == old(decoded) && emitted == old(emitted)
    {
      frames := frames + buf[..n];
      received := received + buf[..n];
    }

    /**
     * What the inner loop does with a decoded frame: join it with its
     * location, hand it to the logger, and remove the bytes it took from the
     * front of the buffer by rotating them to the back and truncating.
     */
    method HandleFrame(frame: Frame, consumed: nat)
      requires Valid()
      requires decode(frames, table) == Ok(frame, consumed)
      modifies this
      ensures Valid()
      ensures received == old(received)
      ensures frames == old(frames)[consumed..]
      ensures decoded == old(decoded) + [Decoded(frame, old(frames)[..consumed])]
      ensures emitted == old(emitted) + [Emission(frame, Metadata(frame.index, locs, cwd))]
    {
      var file, line, modPath := JoinLocation(frame, locs, cwd);
      RecordFrame(table, locs, cwd, decoded, frames, received, emitted, frame, consumed);
      emitted := emitted + [Emission(frame, Meta(file, line, modPath))];
      decoded := decoded + [Decoded(frame, frames[..consumed])];
      var numFrames := |frames|;
      CompactionDropsPrefix(frames, consumed);
      frames := RotateLeft(frames, consumed);
      frames := Truncate(frames, numFrames - consumed);
    }

    /**
     * The inner loop: decode from the front of the buffer and handle each
     * frame, until the decoder needs more bytes or reports malformed data.
     */
    method DrainFrames() returns (stop: Stop)
      requires Valid()
      modifies this
      ensures Valid()
      ensures received == old(received)
      ensures var d := Drain(decode, table, old(frames));
        && frames == d.rest && stop == d.stop
        && decoded == old(decoded) + d.frames
        && emitted == old(emitted) + Emissions(d.frames, table, locs, cwd)
    {
      ghost var batch: seq<Decoded> := [];
      var done := false;
      stop := AwaitInput;
      while !done
        invariant Valid()
        invariant received == old(received)
        invariant decoded == old(decoded) + batch
        invariant !done ==> Drain(decode, table, old(frames)) == After(batch, Drain(decode, table, frames))
        invariant done ==> Drain(decode, table, old(frames)) == Drained(batch, frames, stop)
        invariant !done ==> stop == AwaitInput
        decreases |frames|, if done then 0 else 1
      {
        match decode(frames, table)
        case Ok(frame, consumed) =>
          var record := Decoded(frame, frames[..consumed]);
          DrainStep(decode, table, frames, batch);
          AppendAssoc(old(decoded), batch, [record]);
          HandleFrame(frame, consumed);
          batch := batch + [record];
        case UnexpectedEof =>
          assert batch + [] == batch;
          done := true;
        case Malformed =>
          assert batch + [] == batch;
          stop := Fatal(frames);
          done := true;
      }
      EmissionsAppend(old(decoded), batch, table, locs, cwd);
    }

    /**
     * One turn of the outer loop after a successful read: the chunk is copied
     * into the read buffer, appended to the frame buffer, and drained.
     */
    method ReadAndDrain(chunk: seq<byte>) returns (stop: Stop)
      requires Valid()
      requires |chunk| <= READ_BUFFER_SIZE
      modifies this, buf
      ensures Valid()
      ensures var d := Drain(decode, table, old(frames) + chunk);
        && frames == d.rest && stop == d.stop
        && decoded == old(decoded) + d.frames
        && received == old(received) + chunk
    {
      var n := Read(chunk);
      Ingest(n);
      stop := DrainFrames();
    }

    /**
     * The outer loop over the reads `events`: read, append, drain; a read
     * error or malformed data ends it, otherwise it waits for the next read.
     */
    method Run(events: seq<ReadEvent>) returns (status: Status)
      requires Valid()
      requires forall i :: 0 <= i < |events| ==> |BytesOf(events[i])| <= READ_BUFFER_SIZE
      modifies this, buf
      ensures Valid()
      ensures var s := Session(decode, table, old(frames), events);
        && status == s.status && frames == s.rest
        && decoded == old(decoded) + s.frames
        && emitted == old(emitted) + Emissions(s.frames, table, locs, cwd)
    {
      ghost var before := decoded;
      ghost var start := frames;
      var k := 0;
      ghost var batch: seq<Decoded> := [];
      while k < |events|
        invariant k <= |events|
        invariant Valid()
        invariant decoded == before + batch
        invariant IndicesIn(batch, table.indices)
        invariant Session(decode, table, start, events) == Then(batch, k, Session(decode, table, frames, events[k..]))
      {
        assert events[k..][0] == events[k] && events[k..][1..] == events[k + 1..];
        SessionStep(decode, table, frames, events[k..], batch, k);
        match events[k]
        case ReadError =>
          status := IoFailed;
          EmissionsAppend(before, batch, table, locs, cwd);
          return;
        case Chunk(chunk) =>
          ghost var d := Drain(decode, table, frames + chunk);
          var stop := ReadAndDrain(chunk);
          AppendAssoc(before, batch, d.frames);
          IndicesInAppend(batch, d.frames, table.indices);
          batch := batch + d.frames;
          if stop.Fatal? {
            status := DecodeFailed(stop.reported);
            EmissionsAppend(before, batch, table, locs, cwd);
            return;
          }
          k := k + 1;
      }
      status := Waiting;
      assert batch + [] == batch;
      EmissionsAppend(before, batch, table, locs, cwd);
    }
  }

  /**
   * `main` from startup on: gate the location table, then run the loop over
   * the reads `events`. Returns how the session ended and the records logged.
   */
  method PrintLogs(decode: Decoder, table: Table, elfLocs: LocationMap, cwd: Path, events: seq<ReadEvent>)
    returns (status: Status, log: seq<Emission>)
    requires ValidDecoder(decode, table)
    requires forall i :: 0 <= i < |events| ==> |BytesOf(events[i])| <= READ_BUFFER_SIZE
    ensures var s := Session(decode, table, [], events);
      && status == s.status
      && log == Emissions(s.frames, table, CoverageGate(table, elfLocs), cwd)
  {
    var printer := new StreamPrinter(decode, table, elfLocs, cwd);
    status := printer.Run(events);
    log := printer.emitted;
  }
}

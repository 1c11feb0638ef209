/**
 * The interface of the external frame decoder and the inner decode loop of the
 * printer, stated as a function of the buffer it starts from.
 */
module Decoding {

  newtype byte = b: int | 0 <= b < 256

  /** The symbol table read from the ELF file, reduced to the frame indices it defines. */
  datatype Table = Table(indices: set<nat>)

  /** A decoded log frame: the index of its format string and its raw arguments. */
  datatype Frame = Frame(index: nat, args: seq<byte>)

  /** What one call of the decoder reports. */
  datatype DecodeResult = Ok(frame: Frame, consumed: nat) | UnexpectedEof | Malformed

  /** The decoder is not part of this model: it is any function of the buffer and the table. */
  type Decoder = (seq<byte>, Table) -> DecodeResult

  /**
   * What the printer relies on from the decoder: a frame is decoded from at
   * least one and at most all of the buffered bytes, and only for an index the
   * table defines.
   */
  ghost predicate ValidDecoder(decode: Decoder, table: Table)
  {
    forall bytes: seq<byte> :: decode(bytes, table).Ok? ==>
      && 0 < decode(bytes, table).consumed <= |bytes|
      && decode(bytes, table).frame.index in table.indices
  }

  /** A frame together with the stream bytes it was decoded from. */
  datatype Decoded = Decoded(frame: Frame, bytes: seq<byte>)

  /** Why the inner loop stopped: it waits for more input, or the buffer is reported as malformed. */
  datatype Stop = AwaitInput | Fatal(reported: seq<byte>)

  /** The frames one run of the inner loop decodes, the bytes left buffered, and why it stopped. */
  datatype Drained = Drained(frames: seq<Decoded>, rest: seq<byte>, stop: Stop)

  /** The stream bytes the frames of `ds` were decoded from, in order. */
  function Consumed(ds: seq<Decoded>): seq<byte>
  {
    if ds == [] then [] else ds[0].bytes + Consumed(ds[1..])
  }

  lemma {:induction false} ConsumedAppend(a: seq<Decoded>, b: seq<Decoded>)
    ensures Consumed(a + b) == Consumed(a) + Consumed(b)
  {
    if a == [] {
      assert a + b == b;
    } else {
      assert (a + b)[1..] == a[1..] + b;
      ConsumedAppend(a[1..], b);
    }
  }

  /** `ds` with `prefix` in front of its frames. */
  function After(prefix: seq<Decoded>, d: Drained): Drained
  {
    Drained(prefix + d.frames, d.rest, d.stop)
  }

  /** The index of every frame in `ds` is in `indices`. */
  predicate IndicesIn(ds: seq<Decoded>, indices: set<nat>)
  {
    ds == [] || (ds[0].frame.index in indices && IndicesIn(ds[1..], indices))
  }

  lemma {:induction false} IndicesInAppend(a: seq<Decoded>, b: seq<Decoded>, indices: set<nat>)
    requires IndicesIn(a, indices) && IndicesIn(b, indices)
    ensures IndicesIn(a + b, indices)
  {
    if a == [] {
      assert a + b == b;
    } else {
      assert (a + b)[1..] == a[1..] + b;
      IndicesInAppend(a[1..], b, indices);
    }
  }

  /**
   * The inner loop: decode from the front of `buf` until the decoder needs
   * more bytes or reports malformed data. Every frame it yields has an index
   * of the symbol table.
   */
  function Drain(decode: Decoder, table: Table, buf: seq<byte>): (d: Drained)
    requires ValidDecoder(decode, table)
    ensures IndicesIn(d.frames, table.indices)
    decreases |buf|
  {
    match decode(buf, table)
    case Ok(frame, c) =>
      var d := Drain(decode, table, buf[c..]);
      var ds := [Decoded(frame, buf[..c])] + d.frames;
      assert ds[1..] == d.frames;
      Drained(ds, d.rest, d.stop)
    case UnexpectedEof => Drained([], buf, AwaitInput)
    case Malformed => Drained([], buf, Fatal(buf))
  }

  /**
   * The loop stops only where the decoder stops: it waits for input exactly
   * when the decoder needs more bytes, and on malformed data it reports the
   * whole remaining buffer.
   */
  lemma {:induction false} DrainStops(decode: Decoder, table: Table, buf: seq<byte>)
    requires ValidDecoder(decode, table)
    ensures var d := Drain(decode, table, buf);
      && (d.stop == AwaitInput <==> decode(d.rest, table) == UnexpectedEof)
      && (d.stop.Fatal? <==> decode(d.rest, table) == Malformed)
      && (d.stop.Fatal? ==> d.stop.reported == d.rest)
    decreases |buf|
  {
    if decode(buf, table).Ok? {
      DrainStops(decode, table, buf[decode(buf, table).consumed..]);
    }
  }


  /** Every frame in `ds` has an index of the symbol table and took at least one byte. */
  ghost predicate WellFormedFrames(table: Table, ds: seq<Decoded>)
  {
    IndicesIn(ds, table.indices) && forall i :: 0 <= i < |ds| ==> ds[i].bytes != []
  }

  /** Every frame the loop yields took at least one byte of the buffer and has an index of the symbol table. */
  lemma {:induction false} DrainFramesWellFormed(decode: Decoder, table: Table, buf: seq<byte>)
    requires ValidDecoder(decode, table)
    ensures WellFormedFrames(table, Drain(decode, table, buf).frames)
    decreases |buf|
  {
    if decode(buf, table).Ok? {
      var c := decode(buf, table).consumed;
      DrainFramesWellFormed(decode, table, buf[c..]);
      var d := Drain(decode, table, buf);
      var d' := Drain(decode, table, buf[c..]);
      assert d.frames == [Decoded(decode(buf, table).frame, buf[..c])] + d'.frames;
      assert |buf[..c]| == c > 0;
      forall i | 0 <= i < |d.frames|
        ensures d.frames[i].bytes != []
      {
        if i > 0 {
          assert d.frames[i] == d'.frames[i - 1];
        }
      }
    }
  }

  /**
   * No byte is lost, duplicated or reordered: the bytes of the decoded frames,
   * followed by what stays buffered, are exactly the buffer the loop began with.
   */
  lemma {:induction false} DrainNoLoss(decode: Decoder, table: Table, buf: seq<byte>)
    requires ValidDecoder(decode, table)
    ensures var d := Drain(decode, table, buf);
      Consumed(d.frames) + d.rest == buf
    decreases |buf|
  {
    match decode(buf, table)
    case Ok(frame, c) =>
      var d' := Drain(decode, table, buf[c..]);
      DrainNoLoss(decode, table, buf[c..]);
      var ds := [Decoded(frame, buf[..c])] + d'.frames;
      assert Drain(decode, table, buf) == Drained(ds, d'.rest, d'.stop);
      assert ds[1..] == d'.frames;
      assert Consumed(ds) == buf[..c] + Consumed(d'.frames);
      AppendAssoc(buf[..c], Consumed(d'.frames), d'.rest);
      assert buf == buf[..c] + buf[c..];
    case UnexpectedEof =>
    case Malformed =>
  }

  /**
   * Frames come out in stream order: the i-th frame is what the decoder reports
   * on the bytes that remain once the frames before it are consumed.
   */
  lemma {:induction false} DrainInOrder(decode: Decoder, table: Table, buf: seq<byte>, i: nat)
    requires ValidDecoder(decode, table)
    requires i < |Drain(decode, table, buf).frames|
    ensures var d := Drain(decode, table, buf);
      decode(Consumed(d.frames[i..]) + d.rest, table) == Ok(d.frames[i].frame, |d.frames[i].bytes|)
  {
    var d := Drain(decode, table, buf);
    assert decode(buf, table).Ok?;
    var c := decode(buf, table).consumed;
    var d' := Drain(decode, table, buf[c..]);
    if i == 0 {
      DrainNoLoss(decode, table, buf);
      assert d.frames[0..] == d.frames;
    } else {
      DrainInOrder(decode, table, buf[c..], i - 1);
      assert d.frames[i..] == d'.frames[i - 1..];
    }
  }

  /**
   * Decoders of streamed formats cannot see past the end of a frame: once a
   * frame decodes, more bytes behind it do not change the result.
   */
  ghost predicate PrefixStable(decode: Decoder, table: Table)
  {
    forall bytes: seq<byte>, more: seq<byte> :: decode(bytes, table).Ok? ==>
      decode(Extend(bytes, more), table) == decode(bytes, table)
  }

  /**
   * Malformed data can never become a valid frame: more bytes behind it leave
   * it malformed.
   */
  ghost predicate MalformedStable(decode: Decoder, table: Table)
  {
    forall bytes: seq<byte>, more: seq<byte> :: decode(bytes, table) == Malformed ==>
      decode(Extend(bytes, more), table) == Malformed
  }

  /**
   * `bytes` followed by `more`; a name of its own so that the quantifier of
   * PrefixStable applies only where a proof extends a buffer on purpose.
   */
  function Extend(bytes: seq<byte>, more: seq<byte>): (r: seq<byte>)
    ensures |r| == |bytes| + |more|
    ensures r[..|bytes|] == bytes && r[|bytes|..] == more
  {
    bytes + more
  }

  /**
   * One round of the inner loop: the frame decoded from the front of `buf`
   * joins the frames decoded so far, and the loop goes on with the rest.
   */
  lemma DrainStep(decode: Decoder, table: Table, buf: seq<byte>, done: seq<Decoded>)
    requires ValidDecoder(decode, table)
    requires decode(buf, table).Ok?
    ensures var c := decode(buf, table).consumed;
      After(done, Drain(decode, table, buf))
        == After(done + [Decoded(decode(buf, table).frame, buf[..c])], Drain(decode, table, buf[c..]))
  {
    var c := decode(buf, table).consumed;
    AppendAssoc(done, [Decoded(decode(buf, table).frame, buf[..c])], Drain(decode, table, buf[c..]).frames);
  }


  /**
   * Appending bytes to a buffer yields the same frames first, then whatever
   * the bytes the loop stopped at and the new ones decode to.
   */
  lemma {:induction false} DrainAppend(decode: Decoder, table: Table, buf: seq<byte>, more: seq<byte>)
    requires ValidDecoder(decode, table) && PrefixStable(decode, table)
    ensures var d := Drain(decode, table, buf);
      Drain(decode, table, buf + more) == After(d.frames, Drain(decode, table, d.rest + more))
    decreases |buf|
  {
    if decode(buf, table).Ok? {
      var c := decode(buf, table).consumed;
      DrainAppend(decode, table, buf[c..], more);
      DrainAppendStep(decode, table, buf, more);
    }
  }

  lemma AppendAssoc<T>(a: seq<T>, b: seq<T>, c: seq<T>)
    ensures a + (b + c) == (a + b) + c
  {
  }

  /** The case of DrainAppend where a frame decodes from the front of `buf`, given the case for the rest. */
  lemma DrainAppendStep(decode: Decoder, table: Table, buf: seq<byte>, more: seq<byte>)
    requires ValidDecoder(decode, table) && PrefixStable(decode, table)
    requires decode(buf, table).Ok?
    requires var c := decode(buf, table).consumed;
      var d' := Drain(decode, table, buf[c..]);
      Drain(decode, table, buf[c..] + more) == After(d'.frames, Drain(decode, table, d'.rest + more))
    ensures var d := Drain(decode, table, buf);
      Drain(decode, table, buf + more) == After(d.frames, Drain(decode, table, d.rest + more))
  {
    var r := decode(buf, table);
    var c := r.consumed;
    var longer := Extend(buf, more);
    assert decode(longer, table) == r;
    assert longer[c..] == buf[c..] + more;
    assert longer[..c] == buf[..c];
    var head := [Decoded(r.frame, buf[..c])];
    var d' := Drain(decode, table, buf[c..]);
    var e := Drain(decode, table, d'.rest + more);
    assert Drain(decode, table, buf) == After(head, d');
    assert Drain(decode, table, longer) == After(head, After(d'.frames, e));
    AppendAssoc(head, d'.frames, e.frames);
  }
}

/**
 `MemoryStream`: an inbound and an outbound channel over in-memory cursors, with a
 deframer behind the outbound one.
 */
module MemoryStreams {
  import opened Wrappers
  import opened NameLists
  import opened SshMessages
  import opened SshDeframer

  /** What a deframer does with the bytes it holds: frames, and the bytes kept for later. */
  datatype Framing<!F> = Framing(capacity: nat, deframe: Bytes -> (seq<F>, Bytes), encode: F -> Bytes)

  ghost function Encoded<F>(fr: Framing<F>, fs: seq<F>): Bytes {
    if fs == [] then [] else Encoded(fr, fs[..|fs| - 1]) + fr.encode(fs[|fs| - 1])
  }

  /** These bytes hold no frame. */
  ghost predicate Settled<F>(fr: Framing<F>, s: Bytes) {
    fr.deframe(s) == ([], s)
  }

  ghost predicate LawfulOn<F>(fr: Framing<F>, s: Bytes) {
    Encoded(fr, fr.deframe(s).0) + fr.deframe(s).1 == s && Settled(fr, fr.deframe(s).1)
  }

  /** Deframing rearranges bytes into frames and a remainder without changing them, and the
      remainder holds no further frame. */
  ghost predicate Lawful<F>(fr: Framing<F>) {
    fr.deframe([]) == ([], []) && forall s :: LawfulOn(fr, s)
  }

  lemma {:induction false} EncodedConcat<F>(fr: Framing<F>, a: seq<F>, b: seq<F>)
    ensures Encoded(fr, a + b) == Encoded(fr, a) + Encoded(fr, b)
  {
    if b == [] {
      assert a + b == a;
    } else {
      assert (a + b)[..|a + b| - 1] == a + b[..|b| - 1];
      EncodedConcat(fr, a, b[..|b| - 1]);
    }
  }

  /** The SSH deframer as such a framing. */
  function SshFraming(): Framing<RawSshMessage> {
    Framing(MAX_WIRE_SIZE, (s: Bytes) => if |s| <= MAX_WIRE_SIZE then (DeframeAll(s), []) else ([], s), EncRaw)
  }

  lemma SshFramingIsLawful()
    ensures Lawful(SshFraming())
  {
    var fr := SshFraming();
    forall s
      ensures LawfulOn(fr, s)
    {
      if |s| <= MAX_WIRE_SIZE {
        DeframeConserves(s);
        EncodedIsEncAll(DeframeAll(s));
      }
    }
  }

  lemma {:induction false} EncodedIsEncAll(ms: seq<RawSshMessage>)
    ensures Encoded(SshFraming(), ms) == EncAll(ms)
  {
    if ms != [] {
      var n := |ms| - 1;
      EncodedIsEncAll(ms[..n]);
      EncAllConcat(ms[..n], [ms[n]]);
      assert ms == ms[..n] + [ms[n]];
      assert EncAll([ms[n]]) == EncRaw(ms[n]) + [];
    }
  }

  /** What becomes of a deframer that reads from a slice: as much as fits is taken, and
      deframed behind what is held. */
  function ReadStep<F>(fr: Framing<F>, frames: seq<F>, held: Bytes, slice: Bytes): (seq<F>, Bytes, nat)
    requires |held| <= fr.capacity
  {
    var room := fr.capacity - |held|;
    var n := if |slice| <= room then |slice| else room;
    var (fs, left) := fr.deframe(held + slice[..n]);
    (frames + fs, left, n)
  }

  /** How a read may fail. */
  datatype Fault = WouldBlock | Broken

  class Deframer<F> {
    const framing: Framing<F>
    const faults: nat -> Option<Fault>
    var frames: seq<F>
    var held: Bytes
    var readCount: nat

    ghost predicate Valid()
      reads this
    {
      Lawful(framing) && |held| <= framing.capacity && Settled(framing, held)
    }

    constructor (framing: Framing<F>, faults: nat -> Option<Fault>)
      requires Lawful(framing)
      ensures Valid() && this.framing == framing && this.faults == faults && frames == [] && held == [] && readCount == 0
    {
      this.framing, this.faults, frames, held, readCount := framing, faults, [], [], 0;
    }

    /** How the latest read since number `start` failed, if there was one and it did. */
    ghost function LastFault(start: nat): Option<Fault>
      reads this
    {
      if readCount > start then faults(readCount - 1) else None
    }

    /** Read from a slice, unless the read fails. */
    method Read(slice: Bytes) returns (r: Result<nat, Fault>)
      requires Valid()
      modifies this
      ensures Valid() && readCount == old(readCount) + 1
      ensures r.Err? <==> faults(old(readCount)).Some?
      ensures r.Err? ==> r.error == faults(old(readCount)).value && frames == old(frames) && held == old(held)
      ensures r.Ok? ==> (frames, held, r.value) == ReadStep(framing, old(frames), old(held), slice)
      ensures r.Ok? && r.value == 0 ==> frames == old(frames) && held == old(held)
      ensures r.Ok? ==> Encoded(framing, frames) + held == Encoded(framing, old(frames)) + old(held) + slice[..r.value]
    {
      readCount := readCount + 1;
      if faults(readCount - 1).Some? {
        return Err(faults(readCount - 1).value);
      }
      var room := framing.capacity - |held|;
      var n := if |slice| <= room then |slice| else room;
      var all := held + slice[..n];
      var (fs, left) := framing.deframe(all);
      assert LawfulOn(framing, all);
      assert n == 0 ==> all == held;
      EncodedConcat(framing, frames, fs);
      Assoc(Encoded(framing, frames), Encoded(framing, fs), left);
      Assoc(Encoded(framing, frames), held, slice[..n]);
      frames, held := frames + fs, left;
      r := Ok(n);
    }

    method PopFrame() returns (r: Option<F>)
      modifies this`frames
      ensures r.None? <==> old(frames) == []
      ensures r.None? ==> frames == []
      ensures r.Some? ==> old(frames) == [r.value] + frames
    {
      if frames == [] {
        return None;
      }
      r := Some(frames[0]);
      frames := frames[1..];
    }
  }

  /** The SSH deframer reading from a slice does what `Deframer` with the SSH framing does,
      faults included: its buffered bytes are the held ones. */
  method SshRead(d: SshMessageDeframer, slice: Bytes, fault: Option<Fault>) returns (r: Result<nat, ()>)
    requires d.Valid()
    modifies d, d.buf
    ensures d.Valid()
    ensures r.Err? <==> fault.Some?
    ensures r.Err? ==> d.frames == old(d.frames) && d.buf[..d.used] == old(d.buf[..d.used])
    ensures r.Ok? ==> (d.frames, d.buf[..d.used], r.value)
                      == ReadStep(SshFraming(), old(d.frames), old(d.buf[..d.used]), slice)
  {
    var room := MAX_WIRE_SIZE - d.used;
    var n := if |slice| <= room then |slice| else room;
    r := d.Read(if fault.Some? then IoError else Data(slice[..n]));
    assert fault.None? ==> d.buf[..d.used] == [];
  }

  /** Writing into a cursor overwrites what is at its position and extends the vector. */
  function CursorWrite(data: Bytes, pos: nat, bytes: Bytes): Bytes
    requires pos <= |data|
  {
    var end := pos + |bytes|;
    data[..pos] + bytes + if end < |data| then data[end..] else []
  }

  /** Bytes before and after a read of the outbound channel. */
  lemma ReadAccounting(w: Bytes, t: Bytes, f: Bytes, h: Bytes, o: Bytes, n: nat, f': Bytes, h': Bytes)
    requires n <= |o| && w == t + f + h + o && f' + h' == f + h + o[..n]
    ensures w == t + f' + h' + [] <==> n == |o|
  {
    assert t + f' + h' + [] == t + (f' + h');
    if n == |o| {
      assert o[..n] == o;
      assert t + (f + h + o) == t + f + h + o;
    }
  }

  /** Bytes before and after a frame is taken. */
  lemma PopAccounting<F>(fr: Framing<F>, taken: seq<F>, x: F, more: seq<F>)
    ensures Encoded(fr, taken + [x]) + Encoded(fr, more) == Encoded(fr, taken) + Encoded(fr, [x] + more)
  {
    assert taken + [x] + more == taken + ([x] + more);
    EncodedConcat(fr, taken + [x], more);
    EncodedConcat(fr, taken, [x] + more);
  }

  lemma SplitRest(data: Bytes, pos: nat, n: nat)
    requires pos + n <= |data|
    ensures data[pos..] == data[pos..pos + n] + data[pos + n..]
  {
  }

  class MemoryStream<F> {
    var inbound: Bytes
    var inboundPos: nat
    var outbound: Bytes
    var outboundPos: nat
    const deframer: Deframer<F>

    /** Everything ever added to the inbound channel, and everything read from it. */
    ghost var added: Bytes
    ghost var delivered: Bytes

    /** Everything ever written to the outbound channel, and the frames taken from it. */
    ghost var written: Bytes
    ghost var taken: seq<F>

    /** The bytes waiting inbound are exactly those added and not yet read, in order; the
        outbound cursor sits at the end. */
    ghost predicate Valid()
      reads this, deframer
    {
      && deframer.Valid()
      && inboundPos <= |inbound|
      && added == delivered + inbound[inboundPos..]
      && outboundPos == |outbound|
    }

    /** Every byte written is in a taken frame, in a waiting frame, held by the deframer or
        still in the channel, in this order. */
    ghost predicate NothingLost()
      reads this, deframer
    {
      written == Encoded(deframer.framing, taken) + Encoded(deframer.framing, deframer.frames)
                 + deframer.held + outbound
    }

    constructor (framing: Framing<F>, faults: nat -> Option<Fault>)
      requires Lawful(framing)
      ensures Valid() && NothingLost() && fresh(deframer)
      ensures added == [] && delivered == [] && written == [] && taken == []
    {
      inbound, inboundPos, outbound, outboundPos := [], 0, [], 0;
      deframer := new Deframer(framing, faults);
      added, delivered, written, taken := [], [], [], [];
    }

    /** A message's encoding goes to the end of the inbound vector. */
    method AddToInbound(m: F)
      requires Valid()
      modifies this`inbound, this`added
      ensures Valid() && added == old(added) + deframer.framing.encode(m)
      ensures old(NothingLost()) ==> NothingLost()
    {
      var bytes := deframer.framing.encode(m);
      inbound := inbound + bytes;
      added := added + bytes;
      assert inbound[inboundPos..] == old(inbound[inboundPos..]) + bytes;
    }

    /** `Read::read` into a buffer of `size` bytes. */
    method Read(size: nat) returns (r: Result<Bytes, ()>)
      requires Valid()
      modifies this`inbound, this`inboundPos, this`delivered
      ensures Valid() && added == old(added)
      ensures r.Ok? ==> 0 < |r.value| && delivered == old(delivered) + r.value
      ensures r.Ok? ==> |r.value| == size || (|r.value| < size && delivered == added)
      ensures r.Err? ==> delivered == old(delivered) && (size == 0 || delivered == added)
      ensures old(NothingLost()) ==> NothingLost()
    {
      var left := |inbound| - inboundPos;
      var n := if size <= left then size else left;
      var bytes := inbound[inboundPos..inboundPos + n];
      SplitRest(inbound, inboundPos, n);
      Assoc(delivered, bytes, inbound[inboundPos + n..]);
      inboundPos := inboundPos + n;
      delivered := delivered + bytes;
      NoSuffix(delivered);
      if inboundPos == |inbound| {
        inboundPos := 0;
        inbound := [];
      }
      if n == 0 {
        return Err(());
      }
      r := Ok(bytes);
    }

    /** `Write::write` at the outbound cursor. */
    method Write(bytes: Bytes)
      requires Valid()
      modifies this`outbound, this`outboundPos, this`written
      ensures Valid() && written == old(written) + bytes && outbound == old(outbound) + bytes
      ensures old(NothingLost()) ==> NothingLost()
    {
      outbound := CursorWrite(outbound, outboundPos, bytes);
      outboundPos := outboundPos + |bytes|;
      written := written + bytes;
      assert outbound == old(outbound) + bytes;
      assert old(NothingLost()) ==> NothingLost();
    }

    /** The deframer accepts the whole outbound buffer, or is not asked to. */
    ghost predicate Accepts()
      reads this, deframer
    {
      deframer.frames != [] || |outbound| <= deframer.framing.capacity - |deframer.held|
    }

    /** `take_message_from_outbound`, up to the frame: retry until a frame is there, a read
        brings nothing or a read fails. The loop reads the deframer at most twice, and it
        loses bytes exactly when a read succeeds that cannot accept the whole outbound
        buffer. A read that would block is no error; both kinds of failure lose nothing. */
    method TakeFrame() returns (r: Result<Option<F>, Fault>)
      requires Valid()
      modifies this`outbound, this`outboundPos, this`taken, deframer
      ensures Valid() && old(deframer.readCount) <= deframer.readCount <= old(deframer.readCount) + 2
      ensures taken == old(taken) + if r.Ok? && r.value.Some? then [r.value.value] else []
      ensures old(deframer.frames) != [] ==>
                && r == Ok(Some(old(deframer.frames)[0])) && deframer.readCount == old(deframer.readCount)
                && outbound == old(outbound)
      ensures r == Ok(None) || r.Err? ==> deframer.frames == []
      ensures r == Ok(None) ==> outbound == [] || deframer.LastFault(old(deframer.readCount)) == Some(WouldBlock)
      ensures r.Err? ==> r.error == Broken && deframer.LastFault(old(deframer.readCount)) == Some(Broken)
      ensures old(deframer.frames) == [] && deframer.faults(old(deframer.readCount)).Some? ==>
                outbound == old(outbound) && deframer.held == old(deframer.held)
      ensures old(NothingLost()) ==>
                (NothingLost() <==> old(Accepts()) || old(deframer.faults(deframer.readCount)).Some?)
    {
      ghost var start := deframer.readCount;
      while deframer.frames == []
        invariant Valid() && start <= deframer.readCount <= start + 1 && taken == old(taken)
        invariant deframer.readCount == start ==>
                    deframer.frames == old(deframer.frames) && deframer.held == old(deframer.held) && outbound == old(outbound)
        invariant deframer.readCount == start + 1 ==>
                    old(deframer.frames) == [] && outbound == [] && deframer.faults(start).None?
        invariant old(NothingLost()) ==> (NothingLost() <==> (deframer.readCount == start || old(Accepts())))
        decreases start + 1 - deframer.readCount
      {
        var n := Refill();
        if n.Err? {
          return if n.error.WouldBlock? then Ok(None) else Err(n.error);
        }
        if n.value == 0 {
          return Ok(None);
        }
      }
      var frame := TakeWaiting();
      r := Ok(Some(frame));
    }

    /** Let the deframer read the outbound buffer, which is then cleared. */
    method Refill() returns (n: Result<nat, Fault>)
      requires Valid() && deframer.frames == []
      modifies this`outbound, this`outboundPos, deframer
      ensures Valid() && deframer.readCount == old(deframer.readCount) + 1
      ensures n.Err? <==> deframer.faults(old(deframer.readCount)).Some?
      ensures n.Err? ==> n.error == deframer.faults(old(deframer.readCount)).value
      ensures n.Err? ==> deframer.frames == [] && deframer.held == old(deframer.held) && outbound == old(outbound)
      ensures n.Ok? ==> outbound == [] && n.value <= |old(outbound)|
      ensures n.Ok? && n.value == 0 ==> deframer.frames == [] && deframer.held == old(deframer.held)
      ensures old(NothingLost()) ==> (NothingLost() <==> n.Err? || old(Accepts()))
    {
      ghost var fr, o := deframer.framing, outbound;
      ghost var t, f, h := Encoded(fr, taken), Encoded(fr, deframer.frames), deframer.held;
      n := deframer.Read(outbound);
      if n.Ok? {
        outboundPos := 0;
        outbound := [];
        if old(NothingLost()) {
          ReadAccounting(written, t, f, h, o, n.value, Encoded(fr, deframer.frames), deframer.held);
        }
      }
    }

    method TakeWaiting() returns (frame: F)
      requires Valid() && deframer.frames != []
      modifies this`taken, deframer`frames
      ensures Valid() && taken == old(taken) + [frame]
      ensures old(deframer.frames) == [frame] + deframer.frames
      ensures NothingLost() <==> old(NothingLost())
    {
      ghost var waiting := deframer.frames;
      var popped := deframer.PopFrame();
      frame := popped.value;
      PopAccounting(deframer.framing, taken, frame, deframer.frames);
      taken := taken + [frame];
      assert waiting == [frame] + deframer.frames;
    }
  }
}

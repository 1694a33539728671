/**
 `SshMessageDeframer`: raw SSH messages out of arbitrary reads, through a fixed buffer.
 A remainder that does not parse becomes one `OnWire` frame; nothing is kept back.
 */
module SshDeframer {
  import opened Wrappers
  import opened Codec
  import opened NameLists
  import opened SshMessages
  import opened SshCodec

  const MAX_WIRE_SIZE: nat := 35000

  // ------------------------------------------------------------------ as a function of the bytes

  function DeframeAll(s: Bytes): seq<RawSshMessage>
    requires |s| <= MAX_WIRE_SIZE
    decreases |s|
  {
    if s == [] then []
    else
      match ParseRaw(s)
      case NoParse => [OnWire(s)]
      case Parsed(m, rest) =>
        RawIsFaithful(s);
        [m] + DeframeAll(rest)
  }

  /** One turn of the deframing loop with `before` already emitted. */
  lemma DeframeStep(s: Bytes, before: seq<RawSshMessage>)
    requires 0 < |s| <= MAX_WIRE_SIZE
    ensures ParseRaw(s).NoParse? ==> before + [OnWire(s)] + DeframeAll([]) == before + DeframeAll(s)
    ensures ParseRaw(s).Parsed? ==>
              && |ParseRaw(s).rest| < |s|
              && before + [ParseRaw(s).value] + DeframeAll(ParseRaw(s).rest) == before + DeframeAll(s)
  {
    if ParseRaw(s).Parsed? {
      RawIsFaithful(s);
      var m, more := ParseRaw(s).value, DeframeAll(ParseRaw(s).rest);
      assert before + [m] + more == before + ([m] + more);
    } else {
      assert before + [OnWire(s)] + [] == before + [OnWire(s)];
    }
  }

  function EncAll(ms: seq<RawSshMessage>): Bytes {
    if ms == [] then [] else EncRaw(ms[0]) + EncAll(ms[1..])
  }

  lemma {:induction false} EncAllConcat(a: seq<RawSshMessage>, b: seq<RawSshMessage>)
    ensures EncAll(a + b) == EncAll(a) + EncAll(b)
  {
    if a == [] {
      assert a + b == b;
    } else {
      assert (a + b)[1..] == a[1..] + b;
      EncAllConcat(a[1..], b);
    }
  }

  /** No byte is lost, duplicated or reordered; only the last frame can be unparsed; and
      some bytes give some frame. */
  lemma {:induction false} DeframeConserves(s: Bytes)
    requires |s| <= MAX_WIRE_SIZE
    ensures EncAll(DeframeAll(s)) == s
    ensures forall i :: 0 <= i < |DeframeAll(s)| - 1 ==> !DeframeAll(s)[i].OnWire?
    ensures s != [] <==> DeframeAll(s) != []
    decreases |s|
  {
    if s != [] {
      match ParseRaw(s)
      case NoParse =>
        assert EncAll([OnWire(s)]) == s + [];
      case Parsed(m, rest) =>
        RawIsFaithful(s);
        DeframeConserves(rest);
        assert ([m] + DeframeAll(rest))[1..] == DeframeAll(rest);
    }
  }

  /** A whole message as a peer sends it: the banner line or a packet without mac. */
  ghost predicate Whole(m: RawSshMessage) {
    m == Banner(BANNER) || (m.Packet? && Plain(m.packet))
  }

  /** Whole messages read in one go come out as they went in, in order. */
  lemma {:induction false} DeframeWhole(ms: seq<RawSshMessage>)
    requires forall i :: 0 <= i < |ms| ==> Whole(ms[i])
    requires |EncAll(ms)| <= MAX_WIRE_SIZE
    ensures DeframeAll(EncAll(ms)) == ms
  {
    if ms != [] {
      var m, rest := ms[0], EncAll(ms[1..]);
      var s := EncRaw(m) + rest;
      DeframeWhole(ms[1..]);
      assert Whole(m);
      if m.Banner? {
        assert s[|BANNER|..] == rest;
      } else {
        if BANNER <= s {
          BannerLookalike(m.packet, rest);
        }
        ShortPacketRoundTrip(m.packet, rest);
      }
      assert ms == [m] + ms[1..];
    }
  }

  ghost predicate ChunksFit(chunks: seq<Bytes>) {
    forall i :: 0 <= i < |chunks| ==> |chunks[i]| <= MAX_WIRE_SIZE
  }

  /** The frames of a sequence of reads. */
  ghost function FramesOf(chunks: seq<Bytes>): seq<RawSshMessage>
    requires ChunksFit(chunks)
  {
    if chunks == [] then [] else FramesOf(chunks[..|chunks| - 1]) + DeframeAll(chunks[|chunks| - 1])
  }

  function Flatten(chunks: seq<Bytes>): Bytes {
    if chunks == [] then [] else Flatten(chunks[..|chunks| - 1]) + chunks[|chunks| - 1]
  }

  /** Over any sequence of reads, the emitted frames encode to exactly the bytes read. */
  lemma {:induction false} ReadsConserve(chunks: seq<Bytes>)
    requires ChunksFit(chunks)
    ensures EncAll(FramesOf(chunks)) == Flatten(chunks)
  {
    if chunks != [] {
      var n := |chunks| - 1;
      ReadsConserve(chunks[..n]);
      DeframeConserves(chunks[n]);
      EncAllConcat(FramesOf(chunks[..n]), DeframeAll(chunks[n]));
    }
  }

  // ------------------------------------------------------------------ the deframer

  /** What the underlying reader delivers into the free part of the buffer. */
  datatype IoRead = Data(bytes: Bytes) | IoError

  /** The bytes of the reads that succeed. */
  ghost function Arrived(ios: seq<IoRead>): seq<Bytes> {
    if ios == [] then []
    else
      var n := |ios| - 1;
      Arrived(ios[..n]) + if ios[n].Data? then [ios[n].bytes] else []
  }

  lemma {:induction false} ArrivedConcat(a: seq<IoRead>, b: seq<IoRead>)
    ensures Arrived(a + b) == Arrived(a) + Arrived(b)
  {
    if b == [] {
      assert a + b == a;
    } else {
      assert (a + b)[..|a + b| - 1] == a + b[..|b| - 1];
      ArrivedConcat(a, b[..|b| - 1]);
    }
  }

  lemma ArrivedStep(ios: seq<IoRead>, i: nat)
    requires i < |ios| && ChunksFit(Arrived(ios))
    ensures Arrived(ios[..i + 1]) == Arrived(ios[..i]) + if ios[i].Data? then [ios[i].bytes] else []
    ensures ChunksFit(Arrived(ios[..i + 1])) && (ios[i].Data? ==> |ios[i].bytes| <= MAX_WIRE_SIZE)
  {
    assert ios[..i + 1][..i] == ios[..i];
    assert ios == ios[..i + 1] + ios[i + 1..];
    ArrivedConcat(ios[..i + 1], ios[i + 1..]);
    var some, all := Arrived(ios[..i + 1]), Arrived(ios);
    assert forall k :: 0 <= k < |some| ==> some[k] == all[k];
    if ios[i].Data? {
      assert some[|some| - 1] == ios[i].bytes;
    }
  }

  lemma FramesOfStep(before: seq<RawSshMessage>, chunks: seq<Bytes>, c: Bytes)
    requires ChunksFit(chunks + [c])
    ensures ChunksFit(chunks) && |c| <= MAX_WIRE_SIZE
    ensures before + FramesOf(chunks + [c]) == before + FramesOf(chunks) + DeframeAll(c)
  {
    var longer := chunks + [c];
    assert longer[..|chunks|] == chunks && longer[|chunks|] == c;
    assert forall k :: 0 <= k < |chunks| ==> chunks[k] == longer[k];
    Assoc(before, FramesOf(chunks), DeframeAll(c));
  }

  class SshMessageDeframer {
    var frames: seq<RawSshMessage>
    var desynced: bool
    const buf: array<Byte>
    var used: nat

    ghost predicate Valid()
      reads this
    {
      buf.Length == MAX_WIRE_SIZE && used <= MAX_WIRE_SIZE
    }

    constructor ()
      ensures Valid() && fresh(buf) && buf.Length == 35000 && frames == [] && !desynced && used == 0
    {
      frames, desynced, used := [], false, 0;
      buf := new Byte[MAX_WIRE_SIZE](_ => 0);
    }

    /** Read once, then deframe until the buffer is empty. */
    method Read(io: IoRead) returns (r: Result<nat, ()>)
      requires Valid() && (io.Data? ==> used + |io.bytes| <= MAX_WIRE_SIZE)
      modifies this, buf
      ensures Valid() && desynced == old(desynced)
      ensures io.IoError? ==> r.Err? && frames == old(frames) && used == old(used) && buf[..] == old(buf[..])
      ensures io.Data? ==> r == Ok(|io.bytes|) && used == 0
      ensures io.Data? ==> frames == old(frames) + DeframeAll(old(buf[..used]) + io.bytes)
    {
      if io.IoError? {
        return Err(());
      }
      var newBytes := |io.bytes|;
      forall i | 0 <= i < newBytes {
        buf[used + i] := io.bytes[i];
      }
      assert buf[..used + newBytes] == old(buf[..used]) + io.bytes;
      used := used + newBytes;
      ghost var all := buf[..used];
      while used != 0
        invariant Valid() && desynced == old(desynced)
        invariant frames + DeframeAll(buf[..used]) == old(frames) + DeframeAll(all)
        decreases used
      {
        TryDeframeOne();
      }
      assert frames + [] == frames;
      r := Ok(newBytes);
    }

    /** A sequence of reads, some of which may fail: the frames are those of the bytes that
        arrived, read by read, and nothing is ever kept back. */
    method ReadAll(ios: seq<IoRead>)
      requires Valid() && used == 0 && ChunksFit(Arrived(ios))
      modifies this, buf
      ensures Valid() && used == 0 && desynced == old(desynced)
      ensures frames == old(frames) + FramesOf(Arrived(ios))
      ensures EncAll(frames) == EncAll(old(frames)) + Flatten(Arrived(ios))
    {
      for i := 0 to |ios|
        invariant Valid() && used == 0 && desynced == old(desynced)
        invariant ChunksFit(Arrived(ios[..i])) && frames == old(frames) + FramesOf(Arrived(ios[..i]))
      {
        ArrivedStep(ios, i);
        if ios[i].Data? {
          FramesOfStep(old(frames), Arrived(ios[..i]), ios[i].bytes);
          assert buf[..used] + ios[i].bytes == ios[i].bytes;
        } else {
          NoSuffix(Arrived(ios[..i]));
        }
        var n := Read(ios[i]);
      }
      assert ios[..|ios|] == ios;
      ReadsConserve(Arrived(ios));
      EncAllConcat(old(frames), FramesOf(Arrived(ios)));
    }

    /** Both outcomes report a valid buffer, so the loop in `Read` goes on until the buffer
        is empty and `desynced` is never set. */
    method TryDeframeOne()
      requires Valid() && used > 0
      modifies this`frames, this`used, buf
      ensures Valid() && used < old(used)
      ensures frames + DeframeAll(buf[..used]) == old(frames) + DeframeAll(old(buf[..used]))
    {
      ghost var s := buf[..used];
      var rd := new Reader(buf[..used]);
      var m := ReadRaw(rd);
      DeframeStep(s, frames);
      if m.Some? {
        var taken := rd.offs;
        frames := frames + [m.value];
        assert ParseRaw(s).rest == s[taken..];
        BufConsume(taken);
      } else {
        frames := frames + [OnWire(buf[..used])];
        BufConsume(used);
        assert buf[..used] == [];
      }
    }

    /** Move what is left behind the first `taken` bytes to the front. */
    method BufConsume(taken: nat)
      requires Valid() && taken <= used
      modifies this`used, buf
      ensures Valid() && used == old(used) - taken
      ensures buf[..used] == old(buf[..used])[taken..]
    {
      if taken < used {
        forall i | 0 <= i < used - taken {
          buf[i] := buf[taken + i];
        }
        used := used - taken;
      } else if taken == used {
        used := 0;
      }
    }

    method PopFrame() returns (r: Option<RawSshMessage>)
      modifies this`frames
      ensures r.None? <==> old(frames) == []
      ensures r.None? ==> frames == []
      ensures r.Some? ==> old(frames) == [r.value] + frames
    {
      if frames == [] {
        return None;
      }
      r := Some(frames[0]);
      frames := frames[1..];
    }
  }
}

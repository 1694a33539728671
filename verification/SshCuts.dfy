/** When the SSH deframer gives the same frames however a stream is cut into reads. */
module SshCuts {
  import opened Wrappers
  import opened Codec
  import opened NameLists
  import opened SshMessages
  import opened SshDeframer

  /** What parses at the front of `a` parses alike when more bytes follow. */
  lemma ParseRawExtends(a: Bytes, b: Bytes)
    requires |a + b| <= MAX_WIRE_SIZE && ParseRaw(a).Parsed?
    ensures ParseRaw(a + b) == Parsed(ParseRaw(a).value, ParseRaw(a).rest + b)
  {
    RawIsFaithful(a);
    var m, rest := ParseRaw(a).value, ParseRaw(a).rest;
    Assoc(EncRaw(m), rest, b);
    if BANNER <= a {
      Cut(BANNER, rest + b);
    } else {
      PacketFields(a);
      BeValueBound(a[4..5]);
      Pow256Values();
      if BANNER <= a + b {
        BannerLookalike(m.packet, rest + b);
      }
      ShortPacketRoundTrip(m.packet, rest + b);
    }
  }

  /** The last frame of these bytes is an unparsed remainder. */
  ghost predicate Open(s: Bytes)
    requires |s| <= MAX_WIRE_SIZE
  {
    s != [] && DeframeAll(s) != [] && DeframeAll(s)[|DeframeAll(s)| - 1].OnWire?
  }

  /** A first read that leaves no remainder does not matter. */
  lemma {:induction false} SplitAfterWhole(a: Bytes, b: Bytes)
    requires |a + b| <= MAX_WIRE_SIZE && !Open(a)
    ensures DeframeAll(a) + DeframeAll(b) == DeframeAll(a + b)
    decreases |a|
  {
    if a == [] {
      assert a + b == b && [] + DeframeAll(b) == DeframeAll(b);
    } else {
      DeframeConserves(a);
      var m, rest := ParseRaw(a).value, ParseRaw(a).rest;
      RawIsFaithful(a);
      ParseRawExtends(a, b);
      assert rest != [] ==> DeframeAll(a)[|DeframeAll(a)| - 1] == DeframeAll(rest)[|DeframeAll(rest)| - 1];
      SplitAfterWhole(rest, b);
      Assoc([m], DeframeAll(rest), DeframeAll(b));
    }
  }

  /** Two reads give the frames of one exactly when the first leaves no remainder or the
      second brings nothing. */
  lemma TwoReadsIff(a: Bytes, b: Bytes)
    requires |a + b| <= MAX_WIRE_SIZE
    ensures DeframeAll(a) + DeframeAll(b) == DeframeAll(a + b) <==> !Open(a) || b == []
  {
    if b == [] {
      NoSuffix(a);
      NoSuffix(DeframeAll(a));
    } else if !Open(a) {
      SplitAfterWhole(a, b);
    } else {
      OpenHasRemainder(a);
      DeframeConserves(b);
      RemainderInside(DeframeAll(a), DeframeAll(b), a + b);
    }
  }

  /** An unparsed remainder with frames behind it does not come from one read. */
  lemma RemainderInside(fs: seq<RawSshMessage>, more: seq<RawSshMessage>, s: Bytes)
    requires |s| <= MAX_WIRE_SIZE && more != [] && HasRemainder(fs)
    ensures fs + more != DeframeAll(s)
  {
    DeframeConserves(s);
    var i :| 0 <= i < |fs| && fs[i].OnWire?;
    assert (fs + more)[i].OnWire?;
  }

  /** No read that leaves a remainder is followed by one that brings something. */
  ghost predicate WellCut(chunks: seq<Bytes>)
    requires ChunksFit(chunks)
  {
    forall i, j :: 0 <= i < j < |chunks| ==> !Open(chunks[i]) || chunks[j] == []
  }

  ghost predicate HasRemainder(fs: seq<RawSshMessage>) {
    exists i :: 0 <= i < |fs| && fs[i].OnWire?
  }

  lemma HasRemainderConcat(a: seq<RawSshMessage>, b: seq<RawSshMessage>)
    ensures HasRemainder(a + b) <==> HasRemainder(a) || HasRemainder(b)
  {
    var all := a + b;
    if i :| 0 <= i < |a| && a[i].OnWire? {
      assert all[i].OnWire?;
    }
    if i :| 0 <= i < |b| && b[i].OnWire? {
      assert all[|a| + i].OnWire?;
    }
    if i :| 0 <= i < |all| && all[i].OnWire? {
      assert if i < |a| then a[i].OnWire? else b[i - |a|].OnWire?;
    }
  }

  lemma OpenHasRemainder(s: Bytes)
    requires |s| <= MAX_WIRE_SIZE
    ensures Open(s) <==> HasRemainder(DeframeAll(s))
  {
    DeframeConserves(s);
    RemainderIsLast(DeframeAll(s));
  }

  lemma RemainderIsLast(fs: seq<RawSshMessage>)
    requires forall i :: 0 <= i < |fs| - 1 ==> !fs[i].OnWire?
    ensures HasRemainder(fs) <==> fs != [] && fs[|fs| - 1].OnWire?
  {
  }

  ghost predicate SomeOpen(chunks: seq<Bytes>)
    requires ChunksFit(chunks)
  {
    exists i :: 0 <= i < |chunks| && Open(chunks[i])
  }

  lemma SomeOpenSplit(chunks: seq<Bytes>)
    requires ChunksFit(chunks) && chunks != []
    ensures SomeOpen(chunks) <==> SomeOpen(chunks[..|chunks| - 1]) || Open(chunks[|chunks| - 1])
  {
    var n := |chunks| - 1;
    if i :| 0 <= i < n && Open(chunks[i]) {
      assert Open(chunks[..n][i]);
    }
    if i :| 0 <= i < n && Open(chunks[..n][i]) {
      assert Open(chunks[i]);
    }
  }

  /** A remainder that some read left is among the frames, and no other is. */
  lemma {:induction false} OpenChunkLeavesRemainder(chunks: seq<Bytes>)
    requires ChunksFit(chunks)
    ensures HasRemainder(FramesOf(chunks)) <==> SomeOpen(chunks)
  {
    if chunks != [] {
      var n := |chunks| - 1;
      OpenChunkLeavesRemainder(chunks[..n]);
      OpenHasRemainder(chunks[n]);
      HasRemainderConcat(FramesOf(chunks[..n]), DeframeAll(chunks[n]));
      SomeOpenSplit(chunks);
    }
  }

  /** A sequence of reads gives the frames of one read of all their bytes exactly when it is
      well cut. */
  lemma {:induction false} ReadsAreOneReadIff(chunks: seq<Bytes>)
    requires ChunksFit(chunks) && |Flatten(chunks)| <= MAX_WIRE_SIZE
    ensures FramesOf(chunks) == DeframeAll(Flatten(chunks)) <==> WellCut(chunks)
  {
    if chunks != [] {
      var n := |chunks| - 1;
      var front, last := chunks[..n], chunks[n];
      ReadsAreOneReadIff(front);
      if last == [] {
        NoSuffix(FramesOf(front));
        NoSuffix(Flatten(front));
        WellCutBeforeNothing(chunks);
      } else {
        OpenChunkLeavesRemainder(front);
        WellCutBeforeSomething(chunks);
        if SomeOpen(front) {
          DeframeConserves(last);
          RemainderInside(FramesOf(front), DeframeAll(last), Flatten(chunks));
        } else {
          OpenHasRemainder(Flatten(front));
          SplitAfterWhole(Flatten(front), last);
        }
      }
    }
  }

  lemma WellCutBeforeSomething(chunks: seq<Bytes>)
    requires ChunksFit(chunks) && chunks != [] && chunks[|chunks| - 1] != []
    ensures WellCut(chunks) <==> !SomeOpen(chunks[..|chunks| - 1])
    ensures WellCut(chunks) ==> WellCut(chunks[..|chunks| - 1])
  {
    var n := |chunks| - 1;
    var front := chunks[..n];
    if SomeOpen(front) {
      var i :| 0 <= i < n && Open(front[i]);
      assert !(!Open(chunks[i]) || chunks[n] == []);
    } else {
      forall i, j | 0 <= i < j < |chunks|
        ensures !Open(chunks[i]) || chunks[j] == []
      {
        assert !Open(front[i]);
      }
      assert WellCut(front);
    }
  }

  lemma WellCutBeforeNothing(chunks: seq<Bytes>)
    requires ChunksFit(chunks) && chunks != [] && chunks[|chunks| - 1] == []
    ensures WellCut(chunks) <==> WellCut(chunks[..|chunks| - 1])
  {
    var front := chunks[..|chunks| - 1];
    assert forall i :: 0 <= i < |front| ==> front[i] == chunks[i];
    if WellCut(front) {
      forall i, j | 0 <= i < j < |chunks|
        ensures !Open(chunks[i]) || chunks[j] == []
      {
        if j < |front| {
          assert !Open(front[i]) || front[j] == [];
        }
      }
    }
    if WellCut(chunks) {
      forall i, j | 0 <= i < j < |front|
        ensures !Open(front[i]) || front[j] == []
      {
        assert !Open(chunks[i]) || chunks[j] == [];
      }
    }
  }

  /** Every packet fails at every cut: its first part comes out unparsed, and the two reads
      do not give the packet. */
  lemma CutPacketIsLost(p: BinaryPacket, k: nat)
    requires Plain(p) && |EncPacket(p)| <= MAX_WIRE_SIZE && 0 < k < |EncPacket(p)|
    ensures var s := EncPacket(p);
            && DeframeAll(s) == [Packet(p)]
            && DeframeAll(s[..k]) == [OnWire(s[..k])]
            && DeframeAll(s[..k]) + DeframeAll(s[k..]) != DeframeAll(s)
  {
    var s := EncPacket(p);
    var a, b := s[..k], s[k..];
    assert s == a + b;
    NoSuffix(s);
    if BANNER <= s {
      BannerLookalike(p, []);
    }
    ShortPacketRoundTrip(p, []);
    assert ParseRaw(s) == Parsed(Packet(p), []);
    if ParseRaw(a).Parsed? {
      ParseRawExtends(a, b);
      assert false;
    }
    TwoReadsIff(a, b);
  }
}

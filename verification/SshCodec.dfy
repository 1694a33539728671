/**
 The SSH `Codec` implementations as they are written: `encode` appends to a byte
 buffer, `read` moves a reader. Each is tied to the byte functions of `SshMessages`.
 */
module SshCodec {
  import opened Wrappers
  import opened Codec
  import opened NameLists
  import opened SshMessages

  // ------------------------------------------------------------------ encode

  method AppendUint(buf: Buffer, v: nat, width: nat)
    modifies buf
    ensures buf.bytes == old(buf.bytes) + BeBytes(v, width)
  {
    buf.bytes := buf.bytes + BeBytes(v, width);
  }

  method AppendString(buf: Buffer, s: Bytes)
    modifies buf
    ensures buf.bytes == old(buf.bytes) + EncString(s)
  {
    Assoc(buf.bytes, BeBytes(|s|, U32), s);
    AppendUint(buf, |s|, U32);
    buf.bytes := buf.bytes + s;
  }

  method EncodeNameList(buf: Buffer, names: NameList)
    modifies buf
    ensures buf.bytes == old(buf.bytes) + EncNameList(names)
  {
    AppendString(buf, Join(names));
  }

  method EncodeLists(buf: Buffer, ls: seq<NameList>)
    modifies buf
    ensures buf.bytes == old(buf.bytes) + EncLists(ls)
    decreases |ls|
  {
    if ls == [] {
      NoSuffix(buf.bytes);
    } else {
      Assoc(buf.bytes, EncNameList(ls[0]), EncLists(ls[1..]));
      EncodeNameList(buf, ls[0]);
      EncodeLists(buf, ls[1..]);
    }
  }

  method EncodeKexInit(buf: Buffer, m: KexInit)
    modifies buf
    ensures buf.bytes == old(buf.bytes) + EncKexInit(m)
  {
    var flag: Byte := if m.firstKexPacketFollows then 1 else 0;
    ghost var b, ls, reserved := buf.bytes, EncLists(Lists(m)), BeBytes(0, U32);
    buf.bytes := buf.bytes + m.cookie;
    EncodeLists(buf, Lists(m));
    buf.bytes := buf.bytes + [flag];
    AppendUint(buf, 0, U32);
    Regroup(b, m.cookie, ls, [flag], reserved);
  }

  lemma Regroup(a: Bytes, b: Bytes, c: Bytes, d: Bytes, e: Bytes)
    ensures a + b + c + d + e == a + (b + (c + (d + e)))
  {
    Assoc(a + b + c, d, e);
    Assoc(a + b, c, d + e);
    Assoc(a, b, c + (d + e));
  }

  method EncodeMessage(buf: Buffer, m: SshMessage)
    modifies buf
    ensures buf.bytes == old(buf.bytes) + EncMessage(m)
  {
    match m
    case KexInitMsg(init) =>
      Assoc(buf.bytes, [20], EncKexInit(init));
      buf.bytes := buf.bytes + [20];
      EncodeKexInit(buf, init);
    case NewKeys =>
      buf.bytes := buf.bytes + [21];
    case KexEcdhInit(key) =>
      Assoc(buf.bytes, [30], EncString(key));
      buf.bytes := buf.bytes + [30];
      AppendString(buf, key);
    case KexEcdhReply(host, key, sig) =>
      Assoc(buf.bytes, [31], (EncString(host) + (EncString(key) + EncString(sig))));
      buf.bytes := buf.bytes + [31];
      EncodeReply(buf, host, key, sig);
  }

  method EncodeReply(buf: Buffer, host: Bytes, key: Bytes, sig: Bytes)
    modifies buf
    ensures buf.bytes == old(buf.bytes) + (EncString(host) + (EncString(key) + EncString(sig)))
  {
    Assoc(buf.bytes + EncString(host), EncString(key), EncString(sig));
    Assoc(buf.bytes, EncString(host), EncString(key) + EncString(sig));
    AppendString(buf, host);
    AppendString(buf, key);
    AppendString(buf, sig);
  }

  method EncodePacket(buf: Buffer, p: BinaryPacket)
    modifies buf
    ensures buf.bytes == old(buf.bytes) + EncPacket(p)
  {
    var paddingLength := |p.randomPadding|;
    var payloadLength := |p.payload|;
    ghost var b, head, pad := buf.bytes, BeBytes(payloadLength + paddingLength + 1, U32), BeBytes(paddingLength, U8);
    AppendUint(buf, payloadLength + paddingLength + 1, U32);
    AppendUint(buf, paddingLength, U8);
    buf.bytes := buf.bytes + p.payload;
    buf.bytes := buf.bytes + p.randomPadding;
    buf.bytes := buf.bytes + p.mac;
    Assoc(b + head + pad + p.payload, p.randomPadding, p.mac);
    Regroup(b, head, pad, p.payload, p.randomPadding + p.mac);
  }

  method EncodeRaw(buf: Buffer, m: RawSshMessage)
    modifies buf
    ensures buf.bytes == old(buf.bytes) + EncRaw(m)
  {
    match m
    case Banner(text) => buf.bytes := buf.bytes + text;
    case Packet(p) => EncodePacket(buf, p);
    case OnWire(data) => buf.bytes := buf.bytes + data;
  }

  // ------------------------------------------------------------------ read

  method ReadString(r: Reader) returns (out: Option<Bytes>)
    requires r.Valid()
    modifies r
    ensures r.Valid() && Agrees(out, r.Rest(), ParseString(old(r.Rest())))
  {
    var length := r.ReadUint(U32);
    if length.None? {
      return None;
    }
    out := r.Take(length.value);
  }

  method ReadNameList(r: Reader) returns (out: Option<NameList>)
    requires r.Valid()
    modifies r
    ensures r.Valid() && Agrees(out, r.Rest(), ParseNameList(old(r.Rest())))
  {
    var length := r.ReadUint(U32);
    if length.None? {
      return None;
    }
    if length.value > 0 {
      var names := r.Take(length.value);
      if names.None? || !Utf8(names.value) {
        return None;
      }
      out := Some(Split(names.value));
    } else {
      out := Some([]);
    }
  }

  method ReadLists(r: Reader, k: nat) returns (out: Option<seq<NameList>>)
    requires r.Valid()
    modifies r
    ensures r.Valid() && Agrees(out, r.Rest(), ParseLists(old(r.Rest()), k))
    decreases k
  {
    if k == 0 {
      return Some([]);
    }
    var names := ReadNameList(r);
    if names.None? {
      return None;
    }
    var more := ReadLists(r, k - 1);
    out := if more.None? then None else Some([names.value] + more.value);
  }

  method ReadKexInit(r: Reader) returns (out: Option<KexInit>)
    requires r.Valid()
    modifies r
    ensures r.Valid() && Agrees(out, r.Rest(), ParseKexInit(old(r.Rest())))
  {
    var cookie := r.Take(16);
    if cookie.None? {
      return None;
    }
    var ls := ReadLists(r, 10);
    if ls.None? {
      return None;
    }
    var flag := r.ReadUint(U8);
    if flag.None? {
      return None;
    }
    var reserved := r.ReadUint(U32);
    if reserved.None? {
      return None;
    }
    out := Some(FromLists(cookie.value, ls.value, flag.value != 0));
  }

  method ReadMessage(r: Reader) returns (out: Option<SshMessage>)
    requires r.Valid()
    modifies r
    ensures r.Valid() && Agrees(out, r.Rest(), ParseMessage(old(r.Rest())))
  {
    var typ := r.ReadUint(U8);
    if typ.None? {
      return None;
    }
    match typ.value
    case 20 =>
      var init := ReadKexInit(r);
      out := if init.None? then None else Some(KexInitMsg(init.value));
    case 21 =>
      out := Some(NewKeys);
    case 30 =>
      var key := ReadString(r);
      out := if key.None? then None else Some(KexEcdhInit(key.value));
    case 31 =>
      out := ReadReply(r);
    case _ =>
      out := None;
  }

  method ReadReply(r: Reader) returns (out: Option<SshMessage>)
    requires r.Valid()
    modifies r
    ensures r.Valid() && Agrees(out, r.Rest(), ParseReply(old(r.Rest())))
  {
    var host := ReadString(r);
    if host.None? {
      return None;
    }
    var key := ReadString(r);
    if key.None? {
      return None;
    }
    var sig := ReadString(r);
    if sig.None? {
      return None;
    }
    out := Some(KexEcdhReply(host.value, key.value, sig.value));
  }

  method ReadPacket(r: Reader) returns (out: Option<BinaryPacket>)
    requires r.Valid()
    modifies r
    ensures r.Valid() && Agrees(out, r.Rest(), ParsePacket(old(r.Rest())))
  {
    var packetLength := r.ReadUint(U32);
    if packetLength.None? {
      return None;
    }
    var paddingLength := r.ReadUint(U8);
    if paddingLength.None? {
      return None;
    }
    var payloadLength := WrappingSub(WrappingSub(packetLength.value, paddingLength.value), 1);
    var payload := r.Take(payloadLength);
    if payload.None? {
      return None;
    }
    var padding := r.Take(paddingLength.value);
    if padding.None? {
      return None;
    }
    var mac := r.Take(0);
    out := Some(BinaryPacket(payload.value, padding.value, mac.value));
  }

  method ReadRaw(r: Reader) returns (out: Option<RawSshMessage>)
    requires r.Valid()
    modifies r
    ensures r.Valid() && Agrees(out, r.Rest(), ParseRaw(old(r.Rest())))
  {
    var received := r.Peek(|BANNER|);
    if received.Some? && received.value == BANNER {
      var _ := r.Take(|BANNER|);
      out := Some(Banner(BANNER));
    } else {
      var p := ReadPacket(r);
      out := if p.None? then None else Some(Packet(p.value));
    }
  }
}

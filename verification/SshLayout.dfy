/** Where each field of an SSH message and packet stands on the wire, byte by byte. */
module SshLayout {
  import opened Wrappers
  import opened Codec
  import opened NameLists
  import opened SshMessages
  import opened Negotiation
  import SshId

  /** The low-order bytes of `n`, most significant first, in the `width` bytes from `o` on. */
  ghost predicate NumberAt(s: Bytes, o: nat, width: nat, n: nat) {
    o + width <= |s| && s[o..o + width] == BeBytes(n, width)
  }

  /** Digit by digit. */
  lemma NumberByDigits(s: Bytes, o: nat, width: nat, n: nat, i: nat)
    requires NumberAt(s, o, width, n) && i < width
    ensures s[o + i] == n / Pow256(width - 1 - i) % 256
  {
    BeBytesByDigit(n, width, i);
    assert s[o + i] == s[o..o + width][i];
  }

  /** A length of four bytes at `o`, and the bytes themselves behind it. */
  ghost predicate StringAt(s: Bytes, o: nat, body: Bytes) {
    NumberAt(s, o, 4, |body|) && o + 4 + |body| <= |s| && s[o + 4..o + 4 + |body|] == body
  }

  lemma NumberStands(before: Bytes, n: nat, width: nat, after: Bytes)
    ensures NumberAt(before + (BeBytes(n, width) + after), |before|, width, n)
  {
    Assoc(before, BeBytes(n, width), after);
    Cut(before + BeBytes(n, width), after);
    Cut(before, BeBytes(n, width));
  }

  lemma StringStands(before: Bytes, body: Bytes, after: Bytes)
    ensures StringAt(before + (EncString(body) + after), |before|, body)
  {
    var s := before + (EncString(body) + after);
    Assoc(BeBytes(|body|, U32), body, after);
    NumberStands(before, |body|, U32, body + after);
    assert s == before + BeBytes(|body|, U32) + body + after;
  }

  lemma Likewise(s: Bytes, o: nat, body: Bytes, s': Bytes, o': nat, body': Bytes)
    requires StringAt(s, o, body) && s == s' && o == o' && body == body'
    ensures StringAt(s', o', body')
  {
  }

  // ------------------------------------------------------------------ name lists

  /** Where list `i` starts, counted from the first list. */
  ghost function ListOffset(ls: seq<NameList>, i: nat): nat
    requires i <= |ls|
  {
    if i == 0 then 0 else ListOffset(ls, i - 1) + 4 + |Join(ls[i - 1])|
  }

  lemma {:induction false} ListOffsetOfTail(ls: seq<NameList>, i: nat)
    requires 1 <= i <= |ls|
    ensures ListOffset(ls, i) == 4 + |Join(ls[0])| + ListOffset(ls[1..], i - 1)
  {
    if i > 1 {
      ListOffsetOfTail(ls, i - 1);
    }
  }

  lemma {:induction false} ListsStand(before: Bytes, ls: seq<NameList>, after: Bytes, i: nat)
    requires i < |ls|
    ensures StringAt(before + (EncLists(ls) + after), |before| + ListOffset(ls, i), Join(ls[i]))
    decreases |ls|
  {
    var first, rest := EncNameList(ls[0]), EncLists(ls[1..]);
    Assoc(first, rest, after);
    if i == 0 {
      StringStands(before, Join(ls[0]), rest + after);
    } else {
      ListOffsetOfTail(ls, i);
      ListsStand(before + first, ls[1..], after, i - 1);
      Assoc(before, first, rest + after);
    }
  }

  lemma {:induction false} ListsLength(ls: seq<NameList>)
    ensures |EncLists(ls)| == ListOffset(ls, |ls|)
  {
    if ls != [] {
      ListsLength(ls[1..]);
      ListOffsetOfTail(ls, |ls|);
    }
  }

  /** The ten lists of a KEXINIT, as they follow each other on the wire. */
  ghost function WireField(m: KexInit, i: nat): NameList
    requires i < 10
  {
    match i
    case 0 => m.kexAlgorithms
    case 1 => m.serverHostKeyAlgorithms
    case 2 => m.encryptionServerToClient
    case 3 => m.encryptionClientToServer
    case 4 => m.macClientToServer
    case 5 => m.macServerToClient
    case 6 => m.compressionClientToServer
    case 7 => m.compressionServerToClient
    case 8 => m.languagesClientToServer
    case _ => m.languagesServerToClient
  }

  /** KEXINIT: type 20, sixteen bytes of cookie, the ten lists, the flag and the reserved word. */
  lemma KexInitLayout(m: KexInit)
    requires |m.cookie| == 16
    ensures var s, end := EncMessage(KexInitMsg(m)), 17 + ListOffset(Lists(m), |Lists(m)|);
            && |s| == end + 5
            && s[0] == 20 && s[1..17] == m.cookie
            && s[end] == (if m.firstKexPacketFollows then 1 else 0) && s[end + 1..] == [0, 0, 0, 0]
  {
    var ls, head := Lists(m), [20] + m.cookie;
    var tail: Bytes := [if m.firstKexPacketFollows then 1 else 0] + BeBytes(0, U32);
    KexInitParts(m, head, tail);
    KexInitHead(head, EncLists(ls) + tail, m.cookie);
    ListsLength(ls);
    KexInitTail(head + EncLists(ls), if m.firstKexPacketFollows then 1 else 0);
    Assoc(head, EncLists(ls), tail);
  }

  /** Each list stands behind those before it, its names joined by commas behind their length. */
  lemma KexInitListStands(m: KexInit, i: nat)
    requires |m.cookie| == 16 && i < 10
    ensures StringAt(EncMessage(KexInitMsg(m)), 17 + ListOffset(Lists(m), i), Join(WireField(m, i)))
  {
    var head := [20] + m.cookie;
    var tail: Bytes := [if m.firstKexPacketFollows then 1 else 0] + BeBytes(0, U32);
    KexInitParts(m, head, tail);
    FieldIsList(m, i);
    ListStandsIn(EncMessage(KexInitMsg(m)), head, Lists(m), tail, i, WireField(m, i));
  }

  lemma ListStandsIn(s: Bytes, head: Bytes, ls: seq<NameList>, tail: Bytes, i: nat, field: NameList)
    requires s == head + (EncLists(ls) + tail) && |head| == 17 && i < |ls| && ls[i] == field
    ensures StringAt(s, 17 + ListOffset(ls, i), Join(field))
  {
    ListsStand(head, ls, tail, i);
  }

  lemma FieldIsList(m: KexInit, i: nat)
    requires i < 10
    ensures Lists(m)[i] == WireField(m, i)
  {
  }

  lemma KexInitParts(m: KexInit, head: Bytes, tail: Bytes)
    requires head == [20] + m.cookie && tail == [if m.firstKexPacketFollows then 1 else 0] + BeBytes(0, U32)
    ensures EncMessage(KexInitMsg(m)) == head + (EncLists(Lists(m)) + tail)
  {
    Assoc([20], m.cookie, EncLists(Lists(m)) + tail);
  }

  lemma KexInitHead(head: Bytes, rest: Bytes, cookie: Bytes)
    requires |cookie| == 16 && head == [20] + cookie
    ensures (head + rest)[0] == 20 && (head + rest)[1..17] == cookie
  {
  }

  lemma KexInitTail(before: Bytes, flag: Byte)
    ensures var s := before + ([flag] + BeBytes(0, U32)); |s| == |before| + 5 && s[|before|] == flag && s[|before| + 1..] == [0, 0, 0, 0]
  {
    ZeroWord();
  }

  lemma ZeroWord()
    ensures BeBytes(0, U32) == [0, 0, 0, 0]
  {
    forall i: nat | i < 4
      ensures BeBytes(0, U32)[i] == 0
    {
      BeBytesByDigit(0, U32, i);
    }
  }

  /** The other messages: type 21; type 30 and the key; type 31, host key, key and signature. */
  lemma MessageLayout(m: SshMessage)
    requires !m.KexInitMsg?
    ensures var s := EncMessage(m);
            match m
            case NewKeys => s == [21]
            case KexEcdhInit(key) => s[0] == 30 && StringAt(s, 1, key) && |s| == 5 + |key|
            case KexEcdhReply(host, key, sig) =>
              && s[0] == 31 && StringAt(s, 1, host) && StringAt(s, 5 + |host|, key) && StringAt(s, 9 + |host| + |key|, sig)
              && |s| == 13 + |host| + |key| + |sig|
            case KexInitMsg(_) => true
  {
    match m
    case NewKeys =>
    case KexEcdhInit(key) =>
      StringStands([30], key, []);
      NoSuffix(EncString(key));
    case KexEcdhReply(host, key, sig) =>
      ReplyLayout(host, key, sig);
  }

  lemma ReplyLayout(host: Bytes, key: Bytes, sig: Bytes)
    ensures var s := [31] + (EncString(host) + (EncString(key) + EncString(sig)));
            StringAt(s, 1, host) && StringAt(s, 5 + |host|, key) && StringAt(s, 9 + |host| + |key|, sig)
  {
    var a, b, c := EncString(host), EncString(key), EncString(sig);
    StringStands([31], host, b + c);
    SecondStands([31], host, key, c);
    ReplyThird(host, key, sig);
  }

  lemma ReplyThird(host: Bytes, key: Bytes, sig: Bytes)
    ensures StringAt([31] + (EncString(host) + (EncString(key) + EncString(sig))), 9 + |host| + |key|, sig)
  {
    var a, b, c := EncString(host), EncString(key), EncString(sig);
    SecondStands([31] + a, key, sig, []);
    NoSuffix(c);
    Assoc([31], a, b + c);
    Likewise([31] + a + (b + (c + [])), |[31] + a| + 4 + |key|, sig, [31] + (a + (b + c)), 9 + |host| + |key|, sig);
  }

  lemma SecondStands(before: Bytes, first: Bytes, second: Bytes, after: Bytes)
    ensures StringAt(before + (EncString(first) + (EncString(second) + after)), |before| + 4 + |first|, second)
  {
    Assoc(before, EncString(first), EncString(second) + after);
    StringStands(before + EncString(first), second, after);
  }

  /** A packet: its length without mac, the length of its padding, payload, padding, mac. */
  lemma PacketLayout(p: BinaryPacket)
    ensures var s, a, b := EncPacket(p), |p.payload|, |p.randomPadding|;
            && |s| == 5 + a + b + |p.mac|
            && NumberAt(s, 0, 4, a + b + 1) && s[4] == b % 256
            && s[5..5 + a] == p.payload && s[5 + a..5 + a + b] == p.randomPadding && s[5 + a + b..] == p.mac
  {
    var n, b := |p.payload| + |p.randomPadding| + 1, |p.randomPadding|;
    PacketLength(BeBytes(n, U32), BeBytes(b, U8) + (p.payload + (p.randomPadding + p.mac)));
    BeBytesByDigit(b, U8, 0);
    PacketParts(BeBytes(n, U32), BeBytes(b, U8), p.payload, p.randomPadding, p.mac);
  }

  lemma PacketLength(len: Bytes, rest: Bytes)
    requires |len| == 4
    ensures (len + rest)[0..4] == len
  {
  }

  lemma PacketParts(len: Bytes, pad: Bytes, a: Bytes, b: Bytes, c: Bytes)
    requires |len| == 4 && |pad| == 1
    ensures var s := len + (pad + (a + (b + c)));
            && |s| == 5 + |a| + |b| + |c| && s[4] == pad[0]
            && s[5..5 + |a|] == a && s[5 + |a|..5 + |a| + |b|] == b && s[5 + |a| + |b|..] == c
  {
    var tail := a + (b + c);
    assert (len + (pad + tail))[5..] == tail;
    Cut(a, b + c);
    Cut(b, c);
    assert tail[|a|..|a| + |b|] == (b + c)[..|b|] && tail[|a| + |b|..] == (b + c)[|b|..];
  }

  /** `create_opaque`: the message, seven zero bytes of padding, no mac. */
  lemma OpaqueLayout(m: SshMessage)
    ensures var s, n := EncRaw(CreateOpaque(m)), |EncMessage(m)|;
            && |s| == n + 12 && NumberAt(s, 0, 4, n + 8) && s[4] == 7
            && s[5..5 + n] == EncMessage(m) && s[5 + n..] == [0, 0, 0, 0, 0, 0, 0]
  {
    PacketLayout(CreateOpaque(m).packet);
  }

  // ------------------------------------------------------------------ the negotiation packet

  /** Where string `i` starts, counted from the first string. */
  ghost function StringOffset(ss: seq<Bytes>, i: nat): nat
    requires i <= |ss|
  {
    if i == 0 then 0 else StringOffset(ss, i - 1) + 4 + |ss[i - 1]|
  }

  lemma {:induction false} StringOffsetOfTail(ss: seq<Bytes>, i: nat)
    requires 1 <= i <= |ss|
    ensures StringOffset(ss, i) == 4 + |ss[0]| + StringOffset(ss[1..], i - 1)
  {
    if i > 1 {
      StringOffsetOfTail(ss, i - 1);
    }
  }

  lemma {:induction false} StringsStand(before: Bytes, ss: seq<Bytes>, after: Bytes, i: nat)
    requires i < |ss|
    ensures StringAt(before + (Strings(ss) + after), |before| + StringOffset(ss, i), ss[i])
    ensures |Strings(ss)| == StringOffset(ss, |ss|)
    decreases |ss|
  {
    var first, rest := EncString(ss[0]), Strings(ss[1..]);
    Assoc(first, rest, after);
    StringOffsetOfTail(ss, |ss|);
    if i == 0 {
      StringStands(before, ss[0], rest + after);
      if |ss| > 1 {
        StringsStand(before + first, ss[1..], after, 0);
      }
    } else {
      StringOffsetOfTail(ss, i);
      StringsStand(before + first, ss[1..], after, i - 1);
      Assoc(before, first, rest + after);
    }
  }

  /** The text of each list of the packet: both directions offer the same, and no languages. */
  ghost function WireText(p: Preferred, i: nat): Bytes
    requires i < 10
  {
    match i
    case 0 => Join(p.kex)
    case 1 => Join(p.key)
    case 2 => Join(p.cipher)
    case 3 => Join(p.cipher)
    case 4 => Join(p.mac)
    case 5 => Join(p.mac)
    case 6 => Join(p.compression)
    case 7 => Join(p.compression)
    case _ => []
  }

  /** What `write_kex` appends: type 20, the cookie, ten lists, no packet follows, and the
      reserved word. */
  lemma KexPacketLayout(p: Preferred, cookie: Bytes)
    requires |cookie| == 16
    ensures var s, ss := KexBytes(p, cookie), WireLists(p);
            var end := 17 + StringOffset(ss, |ss|);
            |s| == end + 5 && s[0] == 20 && s[1..17] == cookie && s[end..] == [0, 0, 0, 0, 0]
  {
    StringsFrame([20] + cookie, cookie, WireLists(p), TAIL, 0);
  }

  /** Each list stands behind those before it. */
  lemma KexPacketListStands(p: Preferred, cookie: Bytes, i: nat)
    requires |cookie| == 16 && i < 10
    ensures StringAt(KexBytes(p, cookie), 17 + StringOffset(WireLists(p), i), WireText(p, i))
  {
    TextIsList(p, i);
    StringsFrame([20] + cookie, cookie, WireLists(p), TAIL, i);
  }

  lemma StringsFrame(head: Bytes, cookie: Bytes, ss: seq<Bytes>, tail: Bytes, i: nat)
    requires |cookie| == 16 && head == [20] + cookie && i < |ss|
    ensures var s := head + (Strings(ss) + tail);
            && |s| == 17 + StringOffset(ss, |ss|) + |tail|
            && s[0] == 20 && s[1..17] == cookie
            && StringAt(s, 17 + StringOffset(ss, i), ss[i])
            && s[17 + StringOffset(ss, |ss|)..] == tail
  {
    KexInitHead(head, Strings(ss) + tail, cookie);
    StringsStand(head, ss, tail, i);
    Assoc(head, Strings(ss), tail);
    Cut(head + Strings(ss), tail);
  }

  lemma TextIsList(p: Preferred, i: nat)
    requires i < 10
    ensures WireLists(p)[i] == WireText(p, i)
  {
  }

  // ------------------------------------------------------------------ constants

  /** The bytes of a text of ASCII characters. */
  ghost function Ascii(s: string): Bytes
    requires forall i :: 0 <= i < |s| ==> s[i] < 128 as char
  {
    seq(|s|, i requires 0 <= i < |s| => s[i] as int)
  }

  /** The texts behind the byte constants. */
  lemma ConstantTexts()
    ensures BANNER == Ascii("SSH-2.0-libssh_0.10.90\r\n") && SshId.PREFIX == Ascii("SSH-2.0-")
  {
  }

  /** Two names mean compression, all others none. */
  lemma CompressionNames(name: Bytes)
    ensures FromString(name) == Zlib <==> name == Ascii("zlib") || name == Ascii("zlib@openssh.com")
  {
    ZlibTexts();
  }

  lemma ZlibTexts()
    ensures Ascii("zlib") == [122, 108, 105, 98]
    ensures Ascii("zlib@openssh.com") == [122, 108, 105, 98, 64, 111, 112, 101, 110, 115, 115, 104, 46, 99, 111, 109]
  {
  }
}

/**
 SSH messages on the wire: name lists, key-exchange messages, binary packets and raw
 messages (sections 4.2, 6 and 7.1 of RFC 4253), as byte functions.
 */
module SshMessages {
  import opened Wrappers
  import opened Codec
  import opened NameLists

  const TWO32: nat := 0x1_0000_0000
  const TWO64: nat := 0x1_0000_0000_0000_0000

  /** No allocation is larger than `isize::MAX` bytes. */
  const MAX_SLICE: nat := 0x7FFF_FFFF_FFFF_FFFF

  /** "SSH-2.0-libssh_0.10.90\r\n" */
  const BANNER: Bytes :=
    [83, 83, 72, 45, 50, 46, 48, 45, 108, 105, 98, 115, 115, 104, 95, 48, 46, 49, 48, 46, 57, 48, 13, 10]

  type NameList = seq<Bytes>

  datatype KexInit = KexInit(
    cookie: Bytes,
    kexAlgorithms: NameList,
    serverHostKeyAlgorithms: NameList,
    encryptionServerToClient: NameList,
    encryptionClientToServer: NameList,
    macClientToServer: NameList,
    macServerToClient: NameList,
    compressionClientToServer: NameList,
    compressionServerToClient: NameList,
    languagesClientToServer: NameList,
    languagesServerToClient: NameList,
    firstKexPacketFollows: bool)

  datatype SshMessage =
    | KexInitMsg(init: KexInit)
    | KexEcdhInit(ephemeralPublicKey: Bytes)
    | KexEcdhReply(publicHostKey: Bytes, replyEphemeralPublicKey: Bytes, signature: Bytes)
    | NewKeys

  datatype BinaryPacket = BinaryPacket(payload: Bytes, randomPadding: Bytes, mac: Bytes)

  datatype RawSshMessage =
    | Banner(text: Bytes)
    | Packet(packet: BinaryPacket)
    | OnWire(data: Bytes)

  // ------------------------------------------------------------------ encoding

  /** A length-prefixed byte string. */
  function EncString(s: Bytes): Bytes {
    BeBytes(|s|, U32) + s
  }

  function EncNameList(names: NameList): Bytes {
    EncString(Join(names))
  }

  function EncLists(ls: seq<NameList>): Bytes {
    if ls == [] then [] else EncNameList(ls[0]) + EncLists(ls[1..])
  }

  /** The name lists of a KEXINIT in wire order. */
  function Lists(m: KexInit): (ls: seq<NameList>)
    ensures |ls| == 10
  {
    [m.kexAlgorithms, m.serverHostKeyAlgorithms, m.encryptionServerToClient, m.encryptionClientToServer,
     m.macClientToServer, m.macServerToClient, m.compressionClientToServer, m.compressionServerToClient,
     m.languagesClientToServer, m.languagesServerToClient]
  }

  function EncKexInit(m: KexInit): Bytes {
    m.cookie + (EncLists(Lists(m)) + ([if m.firstKexPacketFollows then 1 else 0] + BeBytes(0, U32)))
  }

  function EncMessage(m: SshMessage): Bytes {
    match m
    case KexInitMsg(init) => [20] + EncKexInit(init)
    case NewKeys => [21]
    case KexEcdhInit(key) => [30] + EncString(key)
    case KexEcdhReply(host, key, sig) => [31] + (EncString(host) + (EncString(key) + EncString(sig)))
  }

  function EncPacket(p: BinaryPacket): Bytes {
    BeBytes(|p.payload| + |p.randomPadding| + 1, U32)
    + (BeBytes(|p.randomPadding|, U8) + (p.payload + (p.randomPadding + p.mac)))
  }

  function EncRaw(m: RawSshMessage): Bytes {
    match m
    case Banner(text) => text
    case Packet(p) => EncPacket(p)
    case OnWire(data) => data
  }

  /** `create_opaque`: seven zero bytes of padding and no mac. */
  function CreateOpaque(m: SshMessage): RawSshMessage {
    Packet(BinaryPacket(EncMessage(m), [0, 0, 0, 0, 0, 0, 0], []))
  }

  // ------------------------------------------------------------------ parsing

  function ParseBytes(s: Bytes, n: nat): Parsed<Bytes> {
    if |s| < n then NoParse else Parsed(s[..n], s[n..])
  }

  function ParseString(s: Bytes): Parsed<Bytes> {
    match ParseUint(s, U32)
    case NoParse => NoParse
    case Parsed(n, rest) => ParseBytes(rest, n)
  }

  function ParseNameList(s: Bytes): Parsed<NameList> {
    match ParseUint(s, U32)
    case NoParse => NoParse
    case Parsed(n, rest) =>
      if n == 0 then Parsed([], rest)
      else
        match ParseBytes(rest, n)
        case NoParse => NoParse
        case Parsed(names, rest') => if Utf8(names) then Parsed(Split(names), rest') else NoParse
  }

  function ParseLists(s: Bytes, k: nat): (r: Parsed<seq<NameList>>)
    ensures r.Parsed? ==> |r.value| == k
  {
    if k == 0 then Parsed([], s)
    else
      match ParseNameList(s)
      case NoParse => NoParse
      case Parsed(names, rest) =>
        match ParseLists(rest, k - 1)
        case NoParse => NoParse
        case Parsed(more, rest') => Parsed([names] + more, rest')
  }

  function FromLists(cookie: Bytes, ls: seq<NameList>, follows: bool): KexInit
    requires |ls| == 10
  {
    KexInit(cookie, ls[0], ls[1], ls[2], ls[3], ls[4], ls[5], ls[6], ls[7], ls[8], ls[9], follows)
  }

  /** The flag byte and the reserved word behind the name lists. */
  function ParseTail(s: Bytes): Parsed<bool> {
    match ParseUint(s, U8)
    case NoParse => NoParse
    case Parsed(flag, rest) =>
      match ParseUint(rest, U32)
      case NoParse => NoParse
      case Parsed(_, rest') => Parsed(flag != 0, rest')
  }

  function ParseKexInit(s: Bytes): Parsed<KexInit> {
    match ParseBytes(s, 16)
    case NoParse => NoParse
    case Parsed(cookie, s1) =>
      match ParseLists(s1, 10)
      case NoParse => NoParse
      case Parsed(ls, s2) =>
        match ParseTail(s2)
        case NoParse => NoParse
        case Parsed(follows, s3) => Parsed(FromLists(cookie, ls, follows), s3)
  }

  function ParseReply(s: Bytes): Parsed<SshMessage> {
    match ParseString(s)
    case NoParse => NoParse
    case Parsed(host, s1) =>
      match ParseString(s1)
      case NoParse => NoParse
      case Parsed(key, s2) =>
        match ParseString(s2)
        case NoParse => NoParse
        case Parsed(sig, s3) => Parsed(KexEcdhReply(host, key, sig), s3)
  }

  function ParseMessage(s: Bytes): Parsed<SshMessage> {
    match ParseUint(s, U8)
    case NoParse => NoParse
    case Parsed(typ, rest) =>
      if typ == 20 then
        match ParseKexInit(rest)
        case NoParse => NoParse
        case Parsed(init, rest') => Parsed(KexInitMsg(init), rest')
      else if typ == 21 then Parsed(NewKeys, rest)
      else if typ == 30 then
        match ParseString(rest)
        case NoParse => NoParse
        case Parsed(key, rest') => Parsed(KexEcdhInit(key), rest')
      else if typ == 31 then ParseReply(rest)
      else NoParse
  }

  /** Subtraction on 64-bit `usize`, wrapping. */
  function WrappingSub(a: nat, b: nat): nat {
    if a >= b then (a - b) % TWO64 else (TWO64 - (b - a) % TWO64) % TWO64
  }

  function ParsePacket(s: Bytes): Parsed<BinaryPacket> {
    match ParseUint(s, U32)
    case NoParse => NoParse
    case Parsed(packetLength, s1) =>
      match ParseUint(s1, U8)
      case NoParse => NoParse
      case Parsed(paddingLength, s2) =>
        match ParseBytes(s2, WrappingSub(WrappingSub(packetLength, paddingLength), 1))
        case NoParse => NoParse
        case Parsed(payload, s3) =>
          match ParseBytes(s3, paddingLength)
          case NoParse => NoParse
          case Parsed(padding, s4) => Parsed(BinaryPacket(payload, padding, []), s4)
  }

  function ParseRaw(s: Bytes): Parsed<RawSshMessage> {
    if BANNER <= s then Parsed(Banner(BANNER), s[|BANNER|..])
    else
      match ParsePacket(s)
      case NoParse => NoParse
      case Parsed(p, rest) => Parsed(Packet(p), rest)
  }

  /** `try_from` on the packet of a raw message; bytes behind the message are ignored. */
  function TryFrom(p: BinaryPacket): Option<SshMessage> {
    match ParseMessage(p.payload)
    case NoParse => None
    case Parsed(m, _) => Some(m)
  }

  // ------------------------------------------------------------------ round trips of the parts

  lemma ParseBytesExact(a: Bytes, suffix: Bytes)
    ensures ParseBytes(a + suffix, |a|) == Parsed(a, suffix)
  {
    assert (a + suffix)[..|a|] == a && (a + suffix)[|a|..] == suffix;
  }

  lemma Pow256Values()
    ensures Pow256(1) == 256 && Pow256(4) == TWO32
  {
    assert Pow256(2) == 65536 && Pow256(3) == 16777216;
  }

  /** A length field that wrapped around reads as something smaller. */
  lemma LengthField(n: nat, suffix: Bytes)
    ensures ParseUint(BeBytes(n, U32) + suffix, U32).Parsed?
    ensures ParseUint(BeBytes(n, U32) + suffix, U32).rest == suffix
    ensures n < TWO32 ==> ParseUint(BeBytes(n, U32) + suffix, U32).value == n
    ensures n >= TWO32 ==> ParseUint(BeBytes(n, U32) + suffix, U32).value < n
  {
    ParseUintExact(n, 4, suffix);
    Pow256Values();
    BeValueBound(BeBytes(n, U32));
  }

  lemma StringRoundTrip(s: Bytes, suffix: Bytes)
    requires |s| < TWO32
    ensures ParseString(EncString(s) + suffix) == Parsed(s, suffix)
  {
    assert EncString(s) + suffix == BeBytes(|s|, U32) + (s + suffix);
    LengthField(|s|, s + suffix);
    ParseBytesExact(s, suffix);
  }

  /** A name list survives exactly when no name holds a comma and it is not the list of
      one empty name. */
  ghost predicate Listable(names: NameList) {
    CommaFree(names) && names != [[]]
  }

  lemma NameListRoundTrip(names: NameList, suffix: Bytes)
    requires AllUtf8(names)
    ensures |Join(names)| < TWO32 && Listable(names) ==>
              ParseNameList(EncNameList(names) + suffix) == Parsed(names, suffix)
    ensures |Join(names)| < TWO32 && !Listable(names) ==>
              var p := ParseNameList(EncNameList(names) + suffix); p.Parsed? && p.value != names && p.rest == suffix
    ensures |Join(names)| >= TWO32 ==>
              var p := ParseNameList(EncNameList(names) + suffix); p.Parsed? ==> |p.rest| > |suffix|
  {
    var joined := Join(names);
    assert EncNameList(names) + suffix == BeBytes(|joined|, U32) + (joined + suffix);
    LengthField(|joined|, joined + suffix);
    JoinLengthPositive(names);
    if |joined| == 0 {
      assert joined + suffix == suffix;
    } else {
      ParseBytesExact(joined, suffix);
      Utf8Join(names);
      SplitJoin(names);
    }
  }

  ghost predicate AllListable(ls: seq<NameList>) {
    forall i :: 0 <= i < |ls| ==> Listable(ls[i])
  }

  ghost predicate ListsFit(ls: seq<NameList>) {
    forall i :: 0 <= i < |ls| ==> |Join(ls[i])| < TWO32 && AllUtf8(ls[i])
  }

  lemma AllListableSplit(ls: seq<NameList>)
    requires ls != []
    ensures AllListable(ls) <==> Listable(ls[0]) && AllListable(ls[1..])
    ensures ListsFit(ls) ==> ListsFit(ls[1..])
  {
    assert forall i :: 1 <= i < |ls| ==> ls[i] == ls[1..][i - 1];
    assert forall i :: 0 <= i < |ls| - 1 ==> ls[1..][i] == ls[i + 1];
  }

  lemma ConsEqual(x: NameList, xs: seq<NameList>, ls: seq<NameList>)
    requires ls != []
    ensures [x] + xs == ls <==> x == ls[0] && xs == ls[1..]
  {
    Cut([x], xs);
    assert ls == [ls[0]] + ls[1..];
  }

  lemma {:induction false} ListsRoundTrip(ls: seq<NameList>, suffix: Bytes)
    requires ListsFit(ls)
    ensures var p := ParseLists(EncLists(ls) + suffix, |ls|);
            p.Parsed? && p.rest == suffix && (p.value == ls <==> AllListable(ls))
  {
    if ls == [] {
      NoSuffix(suffix);
    } else {
      var rest := EncLists(ls[1..]) + suffix;
      Assoc(EncNameList(ls[0]), EncLists(ls[1..]), suffix);
      AllListableSplit(ls);
      NameListRoundTrip(ls[0], rest);
      ListsRoundTrip(ls[1..], suffix);
      var first, more := ParseNameList(EncNameList(ls[0]) + rest).value, ParseLists(rest, |ls| - 1).value;
      ListsStep(EncNameList(ls[0]) + rest, first, rest, |ls| - 1, more, suffix);
      ConsEqual(first, more, ls);
    }
  }

  lemma ListsStep(s: Bytes, x: NameList, rest: Bytes, k: nat, more: seq<NameList>, rest': Bytes)
    requires ParseNameList(s) == Parsed(x, rest) && ParseLists(rest, k) == Parsed(more, rest')
    ensures ParseLists(s, k + 1) == Parsed([x] + more, rest')
  {
  }

  /** Parsing only ever yields lists that survive. */
  lemma ParsedNameList(s: Bytes)
    requires ParseNameList(s).Parsed?
    ensures Listable(ParseNameList(s).value) && |Join(ParseNameList(s).value)| < TWO32
  {
    BeValueBound(s[..4]);
    Pow256Values();
    var n, rest := ParseUint(s, U32).value, ParseUint(s, U32).rest;
    if n > 0 {
      SplitCommaFree(rest[..n]);
      JoinSplit(rest[..n]);
      JoinLengthPositive(Split(rest[..n]));
    }
  }

  ghost predicate AllFit(ls: seq<NameList>) {
    forall i :: 0 <= i < |ls| ==> |Join(ls[i])| < TWO32
  }

  lemma {:induction false} ParsedLists(s: Bytes, k: nat)
    requires ParseLists(s, k).Parsed?
    ensures AllListable(ParseLists(s, k).value) && AllFit(ParseLists(s, k).value)
    decreases k
  {
    if k > 0 {
      ParsedNameList(s);
      ParsedLists(ParseNameList(s).rest, k - 1);
    }
  }

  lemma ParsedString(s: Bytes)
    requires ParseString(s).Parsed?
    ensures |ParseString(s).value| < TWO32
  {
    BeValueBound(s[..4]);
    Pow256Values();
  }

  /** Strings hold valid UTF-8 and the cookie is an array of sixteen bytes. */
  ghost predicate WellFormed(m: SshMessage) {
    m.KexInitMsg? ==> |m.init.cookie| == 16 && forall i :: 0 <= i < 10 ==> AllUtf8(Lists(m.init)[i])
  }

  ghost predicate NamesSurvive(m: SshMessage) {
    m.KexInitMsg? ==> AllListable(Lists(m.init))
  }

  lemma TailRoundTrip(follows: bool, suffix: Bytes)
    ensures ParseTail([if follows then 1 else 0] + BeBytes(0, U32) + suffix) == Parsed(follows, suffix)
  {
    var flag: Byte := if follows then 1 else 0;
    var s := [flag] + BeBytes(0, U32) + suffix;
    assert s[..1] == [flag] && s[1..] == BeBytes(0, U32) + suffix;
    assert [flag][..0] == [];
    assert BeValue([flag]) == flag;
    LengthField(0, suffix);
  }

  lemma FromListsInjective(m: KexInit, ls: seq<NameList>)
    requires |ls| == 10
    ensures FromLists(m.cookie, ls, m.firstKexPacketFollows) == m <==> ls == Lists(m)
  {
    assert Lists(FromLists(m.cookie, ls, m.firstKexPacketFollows)) == ls;
  }

  lemma KexInitParses(m: KexInit, suffix: Bytes)
    requires |m.cookie| == 16 && ListsFit(Lists(m))
    ensures var p := ParseKexInit(EncKexInit(m) + suffix);
            p.Parsed? && p.rest == suffix && (p.value == m <==> AllListable(Lists(m)))
  {
    var ls, tail := Lists(m), [if m.firstKexPacketFollows then 1 else 0] + BeBytes(0, U32);
    Assoc(m.cookie, EncLists(ls) + tail, suffix);
    Assoc(EncLists(ls), tail, suffix);
    ParseBytesExact(m.cookie, EncLists(ls) + (tail + suffix));
    ListsRoundTrip(ls, tail + suffix);
    TailRoundTrip(m.firstKexPacketFollows, suffix);
    FromListsInjective(m, ParseLists(EncLists(ls) + (tail + suffix), 10).value);
  }

  /** A key-exchange message comes back, with what follows it left, exactly when all its
      lists survive and fit their length fields. */
  lemma KexInitRoundTrip(m: KexInit, suffix: Bytes)
    requires |m.cookie| == 16 && forall i :: 0 <= i < 10 ==> AllUtf8(Lists(m)[i])
    ensures ParseKexInit(EncKexInit(m) + suffix) == Parsed(m, suffix) <==> AllListable(Lists(m)) && AllFit(Lists(m))
  {
    var s := EncKexInit(m) + suffix;
    if ParseKexInit(s) == Parsed(m, suffix) {
      ParsedKexInit(s);
    }
    if AllFit(Lists(m)) {
      KexInitParses(m, suffix);
    }
  }

  lemma ParsedKexInit(s: Bytes)
    requires ParseKexInit(s).Parsed?
    ensures AllListable(Lists(ParseKexInit(s).value)) && AllFit(Lists(ParseKexInit(s).value))
  {
    var s1 := ParseBytes(s, 16).rest;
    ParsedLists(s1, 10);
    assert Lists(ParseKexInit(s).value) == ParseLists(s1, 10).value;
  }

  lemma {:induction false} ListsFitInside(ls: seq<NameList>, i: nat)
    requires i < |ls|
    ensures |Join(ls[i])| <= |EncLists(ls)|
  {
    if i > 0 {
      ListsFitInside(ls[1..], i - 1);
    }
  }

  lemma TypeByte(typ: Byte, body: Bytes)
    ensures ParseUint([typ] + body, U8) == Parsed(typ as int, body)
  {
    var s := [typ] + body;
    assert s[..1] == [typ] && s[1..] == body;
    assert [typ][..0] == [];
    assert BeValue([typ]) == typ;
  }

  /** Every length-prefixed field fits its length field. */
  ghost predicate FieldsFit(m: SshMessage) {
    match m
    case KexInitMsg(init) => AllFit(Lists(init))
    case NewKeys => true
    case KexEcdhInit(key) => |key| < TWO32
    case KexEcdhReply(host, key, sig) => |host| < TWO32 && |key| < TWO32 && |sig| < TWO32
  }

  lemma ShortMessagesFit(m: SshMessage)
    requires |EncMessage(m)| < TWO32
    ensures FieldsFit(m)
  {
    if m.KexInitMsg? {
      forall i | 0 <= i < 10
        ensures |Join(Lists(m.init)[i])| < TWO32
      {
        ListsFitInside(Lists(m.init), i);
      }
    }
  }

  /** A message whose fields fit comes back from its payload exactly when its name lists
      survive. */
  lemma MessageParses(m: SshMessage, suffix: Bytes)
    requires WellFormed(m) && FieldsFit(m)
    ensures var p := ParseMessage(EncMessage(m) + suffix);
            p.Parsed? && p.rest == suffix && (p.value == m <==> NamesSurvive(m))
  {
    match m
    case KexInitMsg(init) =>
      Assoc([20], EncKexInit(init), suffix);
      TypeByte(20, EncKexInit(init) + suffix);
      KexInitParses(init, suffix);
    case NewKeys =>
      TypeByte(21, suffix);
    case KexEcdhInit(key) =>
      EcdhInitRoundTrip(key, suffix);
    case KexEcdhReply(host, key, sig) =>
      EcdhReplyRoundTrip(host, key, sig, suffix);
  }

  /** What comes out of the parser has fields that fit and names that survive. */
  lemma ParsedMessage(s: Bytes)
    requires ParseMessage(s).Parsed?
    ensures FieldsFit(ParseMessage(s).value) && NamesSurvive(ParseMessage(s).value)
  {
    var typ, rest := ParseUint(s, U8).value, ParseUint(s, U8).rest;
    if typ == 20 {
      ParsedKexInit(rest);
    } else if typ == 30 {
      ParsedString(rest);
    } else if typ == 31 {
      var s1 := ParseString(rest).rest;
      ParsedString(rest);
      ParsedString(s1);
      ParsedString(ParseString(s1).rest);
    }
  }

  /** Every message, with what follows it left, comes back exactly when its fields fit and
      its names survive. */
  lemma MessageRoundTrip(m: SshMessage, suffix: Bytes)
    requires WellFormed(m)
    ensures ParseMessage(EncMessage(m) + suffix) == Parsed(m, suffix) <==> FieldsFit(m) && NamesSurvive(m)
  {
    if ParseMessage(EncMessage(m) + suffix) == Parsed(m, suffix) {
      ParsedMessage(EncMessage(m) + suffix);
    }
    if FieldsFit(m) {
      MessageParses(m, suffix);
    }
  }

  lemma EcdhInitRoundTrip(key: Bytes, suffix: Bytes)
    requires |key| < TWO32
    ensures ParseMessage(EncMessage(KexEcdhInit(key)) + suffix) == Parsed(KexEcdhInit(key), suffix)
  {
    assert EncMessage(KexEcdhInit(key)) + suffix == [30] + (EncString(key) + suffix);
    TypeByte(30, EncString(key) + suffix);
    StringRoundTrip(key, suffix);
  }

  lemma EcdhReplyRoundTrip(host: Bytes, key: Bytes, sig: Bytes, suffix: Bytes)
    requires |host| < TWO32 && |key| < TWO32 && |sig| < TWO32
    ensures ParseMessage(EncMessage(KexEcdhReply(host, key, sig)) + suffix) == Parsed(KexEcdhReply(host, key, sig), suffix)
  {
    var body := EncString(host) + (EncString(key) + EncString(sig)) + suffix;
    assert EncMessage(KexEcdhReply(host, key, sig)) + suffix == [31] + body;
    TypeByte(31, body);
    ReplyRoundTrip(host, key, sig, suffix);
  }

  lemma ReplyRoundTrip(host: Bytes, key: Bytes, sig: Bytes, suffix: Bytes)
    requires |host| < TWO32 && |key| < TWO32 && |sig| < TWO32
    ensures ParseReply(EncString(host) + (EncString(key) + EncString(sig)) + suffix)
            == Parsed(KexEcdhReply(host, key, sig), suffix)
  {
    var s2 := EncString(sig) + suffix;
    var s1 := EncString(key) + s2;
    assert EncString(host) + (EncString(key) + EncString(sig)) + suffix == EncString(host) + s1;
    StringRoundTrip(host, s1);
    StringRoundTrip(key, s2);
    StringRoundTrip(sig, suffix);
  }

  // ------------------------------------------------------------------ packets

  lemma WrappingSubExact(a: nat, b: nat)
    requires a < TWO64 && b <= 256
    ensures a >= b ==> WrappingSub(a, b) == a - b
    ensures a < b ==> WrappingSub(a, b) == TWO64 + a - b
  {
  }

  lemma ByteField(n: Byte, suffix: Bytes)
    ensures BeBytes(n, U8) == [n]
    ensures ParseUint(BeBytes(n, U8) + suffix, U8) == Parsed(n as int, suffix)
  {
    assert BeBytes(n, U8) == BeBytes(n / 256, 0) + [n % 256];
    ParseUintExact(n, 1, suffix);
    Pow256Values();
  }

  /** The bytes of a parsed packet, field by field. */
  lemma PacketFields(s: Bytes)
    requires |s| <= MAX_SLICE && ParsePacket(s).Parsed?
    ensures |s| >= 5
    ensures var p, rest := ParsePacket(s).value, ParsePacket(s).rest;
            && p.mac == []
            && BeValue(s[..4]) == |p.payload| + |p.randomPadding| + 1
            && BeValue(s[4..5]) == |p.randomPadding|
            && s[5..] == p.payload + (p.randomPadding + rest)
  {
    assert s[4..][..1] == s[4..5] && s[4..][1..] == s[5..];
    BeValueBound(s[..4]);
    BeValueBound(s[4..5]);
    Pow256Values();
    WrappingSubExact(BeValue(s[..4]), BeValue(s[4..5]));
    WrappingSubExact(WrappingSub(BeValue(s[..4]), BeValue(s[4..5])), 1);
  }

  /** A parsed packet re-encodes to the bytes it came from. */
  lemma PacketIsFaithful(s: Bytes)
    requires |s| <= MAX_SLICE && ParsePacket(s).Parsed?
    ensures EncPacket(ParsePacket(s).value) + ParsePacket(s).rest == s
    ensures |ParsePacket(s).rest| < |s|
  {
    PacketFields(s);
    var p, rest := ParsePacket(s).value, ParsePacket(s).rest;
    BytesRoundTrip(s[..4]);
    BytesRoundTrip(s[4..5]);
    EncodedPacket(p, rest);
    HeaderSplit(s);
  }

  lemma EncodedPacket(p: BinaryPacket, rest: Bytes)
    requires p.mac == []
    ensures EncPacket(p) + rest ==
            BeBytes(|p.payload| + |p.randomPadding| + 1, U32)
            + (BeBytes(|p.randomPadding|, U8) + (p.payload + (p.randomPadding + rest)))
  {
    NoSuffix(p.randomPadding);
    Reassemble(BeBytes(|p.payload| + |p.randomPadding| + 1, U32), BeBytes(|p.randomPadding|, U8),
               p.payload, p.randomPadding, rest);
  }

  lemma Reassemble(a: Bytes, b: Bytes, c: Bytes, d: Bytes, rest: Bytes)
    ensures (a + (b + (c + d))) + rest == a + (b + (c + (d + rest)))
  {
    Assoc(a, b + (c + d), rest);
    Assoc(b, c + d, rest);
    Assoc(c, d, rest);
  }

  lemma HeaderSplit(s: Bytes)
    requires |s| >= 5
    ensures s == s[..4] + (s[4..5] + s[5..])
  {
  }

  /** Padding fits its length byte and there is no mac. */
  ghost predicate Plain(p: BinaryPacket) {
    |p.randomPadding| < 256 && p.mac == []
  }

  /** The two length fields at the front of an encoded packet, as the parser sees them. */
  lemma PacketHeader(p: BinaryPacket, suffix: Bytes)
    requires Plain(p)
    ensures var n := |p.payload| + |p.randomPadding| + 1;
            var h := ParseUint(EncPacket(p) + suffix, U32);
            && h.Parsed?
            && (n < TWO32 ==> h.value == n)
            && (n >= TWO32 ==> h.value < n)
            && ParseUint(h.rest, U8) == Parsed(|p.randomPadding|, p.payload + (p.randomPadding + suffix))
  {
    var n, pad := |p.payload| + |p.randomPadding| + 1, |p.randomPadding|;
    var s2 := p.payload + (p.randomPadding + suffix);
    assert EncPacket(p) + suffix == BeBytes(n, U32) + (BeBytes(pad, U8) + s2);
    LengthField(n, BeBytes(pad, U8) + s2);
    ByteField(pad, s2);
  }

  lemma ShortPacketRoundTrip(p: BinaryPacket, suffix: Bytes)
    requires Plain(p) && |p.payload| + |p.randomPadding| + 1 < TWO32
    ensures ParsePacket(EncPacket(p) + suffix) == Parsed(p, suffix)
  {
    var n, pad := |p.payload| + |p.randomPadding| + 1, |p.randomPadding|;
    PacketHeader(p, suffix);
    WrappingSubExact(n, pad);
    WrappingSubExact(n - pad, 1);
    ParseBytesExact(p.payload, p.randomPadding + suffix);
    ParseBytesExact(p.randomPadding, suffix);
  }

  /** A packet comes back, with whatever follows it left in place, exactly when it has no
      mac and its padding and its length fit their length fields. */
  lemma PacketRoundTrip(p: BinaryPacket, suffix: Bytes)
    requires |EncPacket(p) + suffix| <= MAX_SLICE
    ensures ParsePacket(EncPacket(p) + suffix) == Parsed(p, suffix) <==>
            Plain(p) && |p.payload| + |p.randomPadding| + 1 < TWO32
  {
    var s := EncPacket(p) + suffix;
    if ParsePacket(s) == Parsed(p, suffix) {
      PacketFields(s);
      BeValueBound(s[..4]);
      BeValueBound(s[4..5]);
      Pow256Values();
    }
    if Plain(p) && |p.payload| + |p.randomPadding| + 1 < TWO32 {
      ShortPacketRoundTrip(p, suffix);
    }
  }

  /** A packet whose length wrapped around is not parsed, or leaves something else. */
  lemma LongPacketMisread(p: BinaryPacket, suffix: Bytes)
    requires Plain(p) && |EncPacket(p) + suffix| <= MAX_SLICE && |p.payload| + |p.randomPadding| + 1 >= TWO32
    ensures ParsePacket(EncPacket(p) + suffix).Parsed? ==> ParsePacket(EncPacket(p) + suffix).rest != suffix
  {
    if ParsePacket(EncPacket(p) + suffix).Parsed? {
      PacketHeader(p, suffix);
      ParsePacketConsumes(EncPacket(p) + suffix);
    }
  }

  /** What a successful parse leaves is determined by the length field alone. */
  lemma ParsePacketConsumes(s: Bytes)
    requires |s| <= MAX_SLICE && ParsePacket(s).Parsed?
    ensures |ParsePacket(s).rest| == |s| - 4 - ParseUint(s, U32).value
  {
    var len, pad := BeValue(s[..4]), BeValue(s[4..][..1]);
    BeValueBound(s[..4]);
    BeValueBound(s[4..][..1]);
    Pow256Values();
    WrappingSubExact(len, pad);
    WrappingSubExact(WrappingSub(len, pad), 1);
  }

  // ------------------------------------------------------------------ the full stack

  /** Bytes to a message and back out of the packet. */
  ghost function Decode(s: Bytes): Parsed<SshMessage> {
    match ParseRaw(s)
    case Parsed(Packet(p), rest) =>
      (match TryFrom(p)
       case None => NoParse
       case Some(m) => Parsed(m, rest))
    case _ => NoParse
  }

  /** What a message needs to survive: it fits the packet's length field and its names
      survive. */
  ghost predicate Sendable(m: SshMessage) {
    |EncMessage(m)| + 8 < TWO32 && NamesSurvive(m)
  }

  /** `create_opaque` writes padding length seven where the banner has a "2". */
  lemma NeverTheBanner(m: SshMessage, suffix: Bytes)
    ensures !(BANNER <= EncRaw(CreateOpaque(m)) + suffix)
  {
    var p := CreateOpaque(m).packet;
    ByteField(7, []);
    assert (EncPacket(p) + suffix)[4] == BeBytes(7, U8)[0] == 7;
    assert BANNER[4] == 50;
  }

  /** `create_opaque`, `encode`, `RawSshMessage::read` and `try_from` give the message back
      and leave what follows untouched, exactly when the message is sendable. */
  lemma FullStackRoundTrip(m: SshMessage, suffix: Bytes)
    requires WellFormed(m) && |EncRaw(CreateOpaque(m)) + suffix| <= MAX_SLICE
    ensures Decode(EncRaw(CreateOpaque(m)) + suffix) == Parsed(m, suffix) <==> Sendable(m)
  {
    NeverTheBanner(m, suffix);
    if |EncMessage(m)| + 8 < TWO32 {
      ShortStack(m, suffix);
    } else {
      LongPacketMisread(CreateOpaque(m).packet, suffix);
    }
  }

  lemma ShortStack(m: SshMessage, suffix: Bytes)
    requires WellFormed(m) && |EncMessage(m)| + 8 < TWO32 && !(BANNER <= EncRaw(CreateOpaque(m)) + suffix)
    ensures Decode(EncRaw(CreateOpaque(m)) + suffix) == Parsed(m, suffix) <==> NamesSurvive(m)
  {
    var p := CreateOpaque(m).packet;
    ShortPacketRoundTrip(p, suffix);
    PayloadParses(m);
    DecodePacket(EncPacket(p) + suffix, p, suffix);
  }

  lemma PayloadParses(m: SshMessage)
    requires WellFormed(m) && |EncMessage(m)| + 8 < TWO32
    ensures ParseMessage(EncMessage(m)).Parsed? && (ParseMessage(EncMessage(m)).value == m <==> NamesSurvive(m))
  {
    ShortMessagesFit(m);
    MessageParses(m, []);
    NoSuffix(EncMessage(m));
  }

  lemma DecodePacket(s: Bytes, p: BinaryPacket, rest: Bytes)
    requires !(BANNER <= s) && ParsePacket(s) == Parsed(p, rest) && ParseMessage(p.payload).Parsed?
    ensures Decode(s) == Parsed(ParseMessage(p.payload).value, rest)
  {
  }

  /** Only a packet of one particular length, above 1.3 gigabytes, can look like the banner. */
  lemma BannerLookalike(p: BinaryPacket, suffix: Bytes)
    requires BANNER <= EncPacket(p) + suffix && |p.payload| + |p.randomPadding| + 1 < TWO32
    ensures |p.payload| + |p.randomPadding| + 1 == 0x5353482D
  {
    var n := |p.payload| + |p.randomPadding| + 1;
    var s := EncPacket(p) + suffix;
    assert s[..4] == BeBytes(n, U32);
    assert s[..4] == BANNER[..4] == [83, 83, 72, 45];
    BannerLength();
    UintRoundTrip(n, U32);
    Pow256Values();
  }

  lemma BannerLength()
    ensures BeValue([83, 83, 72, 45]) == 0x5353482D
  {
    var s: Bytes := [83, 83, 72, 45];
    assert s[..3] == [83, 83, 72] && s[..3][..2] == [83, 83] && s[..3][..2][..1] == [83] && s[..3][..2][..1][..0] == [];
    assert BeValue([83]) == 83;
    assert BeValue([83, 83]) == 83 * 256 + 83;
    assert BeValue([83, 83, 72]) == (83 * 256 + 83) * 256 + 72;
  }

  /** Raw parsing re-encodes faithfully and consumes something. */
  lemma RawIsFaithful(s: Bytes)
    requires |s| <= MAX_SLICE && ParseRaw(s).Parsed?
    ensures EncRaw(ParseRaw(s).value) + ParseRaw(s).rest == s
    ensures |ParseRaw(s).rest| < |s|
    ensures !ParseRaw(s).value.OnWire?
  {
    if BANNER <= s {
      assert s == BANNER + s[|BANNER|..];
    } else {
      PacketIsFaithful(s);
    }
  }
}

/**
 Algorithm negotiation (section 7.1 of RFC 4253): both sides send their preference
 lists, and each picks from the other's lists with its own loop.
 */
module Negotiation {
  import opened Wrappers
  import opened Codec
  import opened NameLists
  import opened SshMessages
  import opened SshCodec

  datatype Preferred = Preferred(
    kex: seq<Bytes>,
    key: seq<Bytes>,
    cipher: seq<Bytes>,
    mac: seq<Bytes>,
    compression: seq<Bytes>)

  datatype Compression = NoCompression | Zlib

  datatype Names = Names(
    kex: Bytes,
    key: Bytes,
    cipher: Bytes,
    mac: Option<Bytes>,
    serverCompression: Compression,
    clientCompression: Compression,
    ignoreGuessed: bool)

  datatype KexError = IndexOutOfBounds | NoCommonKexAlgo | NoCommonKeyAlgo | NoCommonCipher | NoCommonCompression

  /** A choice, and whether it was the first choice of both sides. */
  datatype Selection = Selection(bothFirst: bool, name: Bytes)

  datatype Side = AsServer | AsClient

  function NameOf(s: Option<Selection>): Option<Bytes> {
    if s.None? then None else Some(s.value.name)
  }

  // ------------------------------------------------------------------ selection

  /** The first name of the client that the server also lists. */
  function FirstCommon(client: seq<Bytes>, server: seq<Bytes>): Option<Bytes> {
    if client == [] then None
    else if client[0] in server then Some(client[0])
    else FirstCommon(client[1..], server)
  }

  /** That name, and whether the two lists have the same head. */
  function Selected(client: seq<Bytes>, server: seq<Bytes>): Option<Selection> {
    var c := FirstCommon(client, server);
    if c.None? || server == [] || client == [] then None
    else Some(Selection(client[0] == server[0], c.value))
  }

  lemma {:induction false} FirstCommonExact(client: seq<Bytes>, server: seq<Bytes>)
    ensures FirstCommon(client, server).None? <==> forall c :: c in client ==> c !in server
    ensures FirstCommon(client, server).Some? ==>
              exists i :: 0 <= i < |client| && client[i] == FirstCommon(client, server).value && client[i] in server
                          && forall j :: 0 <= j < i ==> client[j] !in server
  {
    if client != [] && client[0] !in server {
      FirstCommonExact(client[1..], server);
      assert forall c :: c in client <==> c == client[0] || c in client[1..];
      if FirstCommon(client[1..], server).Some? {
        var i :| 0 <= i < |client| - 1 && client[1..][i] == FirstCommon(client[1..], server).value
                 && client[1..][i] in server && forall j :: 0 <= j < i ==> client[1..][j] !in server;
        assert client[i + 1] == client[1..][i];
        assert forall j :: 1 <= j < i + 1 ==> client[j] == client[1..][j - 1];
      }
    }
  }

  lemma {:induction false} SkipUncommon(client: seq<Bytes>, server: seq<Bytes>, i: nat)
    requires i <= |client| && forall j :: 0 <= j < i ==> client[j] !in server
    ensures FirstCommon(client, server) == FirstCommon(client[i..], server)
  {
    if i == 0 {
      assert client[0..] == client;
    } else {
      assert client[1..][i - 1..] == client[i..];
      SkipUncommon(client[1..], server, i - 1);
    }
  }

  /** `Server::select`: the client's names in the outer loop, ours in the inner. */
  method ServerSelect(serverList: seq<Bytes>, clientList: Bytes) returns (r: Option<Selection>)
    ensures r == Selected(Split(clientList), serverList)
  {
    var bothFirstChoice := true;
    var client := Split(clientList);
    for i := 0 to |client|
      invariant forall j :: 0 <= j < i ==> client[j] !in serverList
      invariant bothFirstChoice <==> i == 0 || serverList == []
    {
      for k := 0 to |serverList|
        invariant client[i] !in serverList[..k]
        invariant bothFirstChoice <==> (i == 0 && k == 0) || serverList == []
      {
        if client[i] == serverList[k] {
          SkipUncommon(client, serverList, i);
          return Some(Selection(bothFirstChoice, serverList[k]));
        }
        bothFirstChoice := false;
      }
      assert serverList[..|serverList|] == serverList;
    }
    SkipUncommon(client, serverList, |client|);
    r := None;
  }

  /** `Client::select`: our names in the outer loop, the server's in the inner. */
  method ClientSelect(clientList: seq<Bytes>, serverList: Bytes) returns (r: Option<Selection>)
    ensures r == Selected(clientList, Split(serverList))
  {
    var bothFirstChoice := true;
    var server := Split(serverList);
    for i := 0 to |clientList|
      invariant forall j :: 0 <= j < i ==> clientList[j] !in server
      invariant bothFirstChoice <==> i == 0
    {
      for k := 0 to |server|
        invariant clientList[i] !in server[..k]
        invariant bothFirstChoice <==> i == 0 && k == 0
      {
        if server[k] == clientList[i] {
          SkipUncommon(clientList, server, i);
          return Some(Selection(bothFirstChoice, clientList[i]));
        }
        bothFirstChoice := false;
      }
      assert server[..|server|] == server;
    }
    SkipUncommon(clientList, server, |clientList|);
    r := None;
  }

  function Select(side: Side, mine: seq<Bytes>, theirs: Bytes): Option<Selection> {
    if side.AsServer? then Selected(Split(theirs), mine) else Selected(mine, Split(theirs))
  }

  method RunSelect(side: Side, mine: seq<Bytes>, theirs: Bytes) returns (r: Option<Selection>)
    ensures r == Select(side, mine, theirs)
  {
    if side.AsServer? {
      r := ServerSelect(mine, theirs);
    } else {
      r := ClientSelect(mine, theirs);
    }
  }

  /** Where the two sides part: the joined text of no names is that of one empty name, so a
      side with an empty list is taken to list the empty name. */
  ghost predicate SameChoice(client: seq<Bytes>, server: seq<Bytes>) {
    !(client == [] && [] in server) && !(server == [] && [] in client)
  }

  lemma FirstCommonOfOne(client: seq<Bytes>, server: seq<Bytes>)
    ensures FirstCommon([[]], server) == if [] in server then Some([]) else None
    ensures FirstCommon(client, [[]]) == if [] in client then Some([]) else None
    ensures FirstCommon(client, []).None?
  {
    FirstCommonExact([[]], server);
    FirstCommonExact(client, [[]]);
    FirstCommonExact(client, []);
  }

  /** From the wire both sides select the same name with the same flag, the choice their
      lists determine, exactly when neither lists nothing while the other lists the empty
      name. Otherwise one side finds a name and the other finds none. */
  lemma SelectAgrees(client: seq<Bytes>, server: seq<Bytes>)
    requires CommaFree(client) && CommaFree(server)
    ensures Select(AsServer, server, Join(client)) == Select(AsClient, client, Join(server)) <==> SameChoice(client, server)
    ensures SameChoice(client, server) ==> Select(AsServer, server, Join(client)) == Selected(client, server)
    ensures !SameChoice(client, server) ==>
              (Select(AsServer, server, Join(client)).None? <==> Select(AsClient, client, Join(server)).Some?)
  {
    FirstCommonOfOne(client, server);
    if client != [] {
      SplitJoin(client);
    }
    if server != [] {
      SplitJoin(server);
    }
  }

  /** An instance of disagreement: the client finds the empty name and the server nothing. */
  lemma EmptyNameBreaksAgreement()
    ensures Select(AsServer, [], Join([[]])).None?
    ensures Select(AsClient, [[]], Join([])) == Some(Selection(true, []))
  {
    assert FirstCommon([[]], [[]]) == Some([]);
  }

  // ------------------------------------------------------------------ the KEXINIT packet

  function Strings(ss: seq<Bytes>): Bytes {
    if ss == [] then [] else EncString(ss[0]) + Strings(ss[1..])
  }

  /** The ten lists in wire order; the language lists are empty. */
  function WireLists(p: Preferred): (ss: seq<Bytes>)
    ensures |ss| == 10
  {
    [Join(p.kex), Join(p.key), Join(p.cipher), Join(p.cipher), Join(p.mac), Join(p.mac),
     Join(p.compression), Join(p.compression), [], []]
  }

  /** Flag "no packet follows" and the reserved word. */
  const TAIL: Bytes := [0, 0, 0, 0, 0]

  /** What `write_kex` appends: KEXINIT, the cookie, the lists, the tail. */
  function KexBytes(p: Preferred, cookie: Bytes): Bytes {
    [20] + cookie + (Strings(WireLists(p)) + TAIL)
  }

  method AppendStrings(buf: Buffer, ss: seq<Bytes>)
    modifies buf
    ensures buf.bytes == old(buf.bytes) + Strings(ss)
    decreases |ss|
  {
    if ss == [] {
      NoSuffix(buf.bytes);
    } else {
      Assoc(buf.bytes, EncString(ss[0]), Strings(ss[1..]));
      AppendString(buf, ss[0]);
      AppendStrings(buf, ss[1..]);
    }
  }

  method WriteKex(p: Preferred, cookie: Bytes, buf: Buffer)
    modifies buf
    ensures buf.bytes == old(buf.bytes) + KexBytes(p, cookie)
  {
    ghost var ss := WireLists(p);
    buf.bytes := buf.bytes + [20];
    buf.bytes := buf.bytes + cookie;
    AppendStrings(buf, WireLists(p));
    buf.bytes := buf.bytes + [0];
    buf.bytes := buf.bytes + [0, 0, 0, 0];
    AppendAssoc(old(buf.bytes), cookie, Strings(ss));
  }

  lemma AppendAssoc(b: Bytes, cookie: Bytes, body: Bytes)
    ensures b + [20] + cookie + body + [0] + [0, 0, 0, 0] == b + ([20] + cookie + (body + TAIL))
  {
  }

  // ------------------------------------------------------------------ reading it

  function FromString(name: Bytes): Compression {
    if name == [122, 108, 105, 98] || name == [122, 108, 105, 98, 64, 111, 112, 101, 110, 115, 115, 104, 46, 99, 111, 109]
    then Zlib else NoCompression
  }

  /** The outcome of `read_kex` on the bytes behind type and cookie, list by list. */
  function OutcomeKex(side: Side, s: Bytes, pref: Preferred): Result<Names, KexError> {
    match ParseString(s)
    case NoParse => Err(IndexOutOfBounds)
    case Parsed(theirs, rest) =>
      var kex := Select(side, pref.kex, theirs);
      if kex.None? then Err(NoCommonKexAlgo) else OutcomeKey(side, rest, pref, kex.value)
  }

  function OutcomeKey(side: Side, s: Bytes, pref: Preferred, kex: Selection): Result<Names, KexError> {
    match ParseString(s)
    case NoParse => Err(IndexOutOfBounds)
    case Parsed(theirs, rest) =>
      var key := Select(side, pref.key, theirs);
      if key.None? then Err(NoCommonKeyAlgo) else OutcomeCipher(side, rest, pref, kex, key.value)
  }

  function OutcomeCipher(side: Side, s: Bytes, pref: Preferred, kex: Selection, key: Selection): Result<Names, KexError> {
    match ParseString(s)
    case NoParse => Err(IndexOutOfBounds)
    case Parsed(theirs, rest) =>
      var cipher := Select(side, pref.cipher, theirs);
      if cipher.None? then Err(NoCommonCipher)
      else
        match ParseString(rest)
        case NoParse => Err(IndexOutOfBounds)
        case Parsed(_, rest') => OutcomeMac(side, rest', pref, kex, key, cipher.value.name)
  }

  function OutcomeMac(side: Side, s: Bytes, pref: Preferred, kex: Selection, key: Selection, cipher: Bytes)
    : Result<Names, KexError>
  {
    match ParseString(s)
    case NoParse => Err(IndexOutOfBounds)
    case Parsed(theirs, rest) =>
      var mac := Select(side, pref.mac, theirs);
      match ParseString(rest)
      case NoParse => Err(IndexOutOfBounds)
      case Parsed(_, rest') =>
        OutcomeCompression(side, rest', pref, kex, key, cipher, NameOf(mac))
  }

  function OutcomeCompression(side: Side, s: Bytes, pref: Preferred, kex: Selection, key: Selection,
                              cipher: Bytes, mac: Option<Bytes>): Result<Names, KexError>
  {
    match ParseString(s)
    case NoParse => Err(IndexOutOfBounds)
    case Parsed(theirs, rest) =>
      var client := Select(side, pref.compression, theirs);
      if client.None? then Err(NoCommonCompression)
      else
        match ParseString(rest)
        case NoParse => Err(IndexOutOfBounds)
        case Parsed(theirs', rest') =>
          var server := Select(side, pref.compression, theirs');
          if server.None? then Err(NoCommonCompression)
          else
            OutcomeTail(rest', Names(kex.name, key.name, cipher, mac, FromString(server.value.name),
                                     FromString(client.value.name), !(kex.bothFirst && key.bothFirst)))
  }

  /** Languages are skipped. A wrong guess is ignored only if a packet follows. */
  function OutcomeTail(s: Bytes, names: Names): Result<Names, KexError> {
    match ParseString(s)
    case NoParse => Err(IndexOutOfBounds)
    case Parsed(_, rest) =>
      match ParseString(rest)
      case NoParse => Err(IndexOutOfBounds)
      case Parsed(_, rest') =>
        if rest' == [] then Err(IndexOutOfBounds)
        else Ok(names.(ignoreGuessed := rest'[0] != 0 && names.ignoreGuessed))
  }

  function ReadOutcome(side: Side, buffer: Bytes, pref: Preferred): Result<Names, KexError> {
    if |buffer| < 17 then Err(IndexOutOfBounds) else OutcomeKex(side, buffer[17..], pref)
  }

  /** `Select::read_kex`. */
  method ReadKex(side: Side, buffer: Bytes, pref: Preferred) returns (out: Result<Names, KexError>)
    ensures out == ReadOutcome(side, buffer, pref)
  {
    if |buffer| < 17 {
      return Err(IndexOutOfBounds);
    }
    var r := new Reader(buffer[17..]);
    var kexString := ReadString(r);
    if kexString.None? {
      return Err(IndexOutOfBounds);
    }
    var kex := RunSelect(side, pref.kex, kexString.value);
    if kex.None? {
      return Err(NoCommonKexAlgo);
    }
    var keyString := ReadString(r);
    if keyString.None? {
      return Err(IndexOutOfBounds);
    }
    var key := RunSelect(side, pref.key, keyString.value);
    if key.None? {
      return Err(NoCommonKeyAlgo);
    }
    out := ReadCipher(side, r, pref, kex.value, key.value);
  }

  method ReadCipher(side: Side, r: Reader, pref: Preferred, kex: Selection, key: Selection)
    returns (out: Result<Names, KexError>)
    requires r.Valid()
    modifies r
    ensures out == OutcomeCipher(side, old(r.Rest()), pref, kex, key)
  {
    var cipherString := ReadString(r);
    if cipherString.None? {
      return Err(IndexOutOfBounds);
    }
    var cipher := RunSelect(side, pref.cipher, cipherString.value);
    if cipher.None? {
      return Err(NoCommonCipher);
    }
    var serverToClient := ReadString(r);
    if serverToClient.None? {
      return Err(IndexOutOfBounds);
    }
    out := ReadMac(side, r, pref, kex, key, cipher.value.name);
  }

  method ReadMac(side: Side, r: Reader, pref: Preferred, kex: Selection, key: Selection, cipher: Bytes)
    returns (out: Result<Names, KexError>)
    requires r.Valid()
    modifies r
    ensures out == OutcomeMac(side, old(r.Rest()), pref, kex, key, cipher)
  {
    var macString := ReadString(r);
    if macString.None? {
      return Err(IndexOutOfBounds);
    }
    var mac := RunSelect(side, pref.mac, macString.value);
    var serverToClient := ReadString(r);
    if serverToClient.None? {
      return Err(IndexOutOfBounds);
    }
    out := ReadCompression(side, r, pref, kex, key, cipher, NameOf(mac));
  }

  method ReadCompression(side: Side, r: Reader, pref: Preferred, kex: Selection, key: Selection,
                         cipher: Bytes, mac: Option<Bytes>) returns (out: Result<Names, KexError>)
    requires r.Valid()
    modifies r
    ensures out == OutcomeCompression(side, old(r.Rest()), pref, kex, key, cipher, mac)
  {
    var clientString := ReadString(r);
    if clientString.None? {
      return Err(IndexOutOfBounds);
    }
    var client := RunSelect(side, pref.compression, clientString.value);
    if client.None? {
      return Err(NoCommonCompression);
    }
    var serverString := ReadString(r);
    if serverString.None? {
      return Err(IndexOutOfBounds);
    }
    var server := RunSelect(side, pref.compression, serverString.value);
    if server.None? {
      return Err(NoCommonCompression);
    }
    out := ReadTail(r, Names(kex.name, key.name, cipher, mac, FromString(server.value.name),
                             FromString(client.value.name), !(kex.bothFirst && key.bothFirst)));
  }

  method ReadTail(r: Reader, names: Names) returns (out: Result<Names, KexError>)
    requires r.Valid()
    modifies r
    ensures out == OutcomeTail(old(r.Rest()), names)
  {
    var languages := ReadString(r);
    if languages.None? {
      return Err(IndexOutOfBounds);
    }
    languages := ReadString(r);
    if languages.None? {
      return Err(IndexOutOfBounds);
    }
    var flag := r.Take(1);
    if flag.None? {
      return Err(IndexOutOfBounds);
    }
    var follows := flag.value[0] != 0;
    out := Ok(names.(ignoreGuessed := follows && names.ignoreGuessed));
  }

  // ------------------------------------------------------------------ agreement

  /** The outcome when these choices were made, and a packet follows or not. */
  function Outcome(kex: Option<Selection>, key: Option<Selection>, cipher: Option<Selection>, mac: Option<Selection>,
                   client: Option<Selection>, server: Option<Selection>, follows: bool): Result<Names, KexError>
  {
    if kex.None? then Err(NoCommonKexAlgo)
    else if key.None? then Err(NoCommonKeyAlgo)
    else if cipher.None? then Err(NoCommonCipher)
    else if client.None? || server.None? then Err(NoCommonCompression)
    else
      Ok(Names(kex.value.name, key.value.name, cipher.value.name, NameOf(mac), FromString(server.value.name),
               FromString(client.value.name), follows && !(kex.value.bothFirst && key.value.bothFirst)))
  }

  /** What the two preference sets determine, independent of who computes it. */
  function Negotiated(client: Preferred, server: Preferred): Result<Names, KexError> {
    var compression := Selected(client.compression, server.compression);
    Outcome(Selected(client.kex, server.kex), Selected(client.key, server.key), Selected(client.cipher, server.cipher),
            Selected(client.mac, server.mac), compression, compression, false)
  }

  ghost predicate Short(ss: seq<Bytes>) {
    forall i :: 0 <= i < |ss| ==> |ss[i]| < TWO32
  }

  /** Names that a list can carry, in lists that their length fields can measure. */
  ghost predicate Carriable(p: Preferred) {
    && CommaFree(p.kex) && CommaFree(p.key) && CommaFree(p.cipher) && CommaFree(p.mac) && CommaFree(p.compression)
    && Short(WireLists(p))
  }

  /** The bytes behind the first `k` lists. */
  function From(ss: seq<Bytes>, k: nat, tail: Bytes): Bytes
    requires k <= |ss|
  {
    Strings(ss[k..]) + tail
  }

  lemma NextList(ss: seq<Bytes>, k: nat, tail: Bytes)
    requires k < |ss| && Short(ss)
    ensures ParseString(From(ss, k, tail)) == Parsed(ss[k], From(ss, k + 1, tail))
  {
    assert ss[k..][1..] == ss[k + 1..];
    assert From(ss, k, tail) == EncString(ss[k]) + From(ss, k + 1, tail);
    StringRoundTrip(ss[k], From(ss, k + 1, tail));
  }

  lemma TailOutcome(ss: seq<Bytes>, tail: Bytes, names: Names)
    requires |ss| == 10 && Short(ss) && tail != []
    ensures OutcomeTail(From(ss, 8, tail), names) == Ok(names.(ignoreGuessed := tail[0] != 0 && names.ignoreGuessed))
  {
    NextList(ss, 8, tail);
    NextList(ss, 9, tail);
    assert ss[10..] == [];
    assert From(ss, 10, tail) == tail;
  }

  lemma CompressionStep(side: Side, s: Bytes, t: Bytes, s1: Bytes, u: Bytes, s2: Bytes, mine: Preferred,
                        kex: Selection, key: Selection, cipher: Bytes, mac: Option<Bytes>)
    requires ParseString(s) == Parsed(t, s1) && ParseString(s1) == Parsed(u, s2)
    ensures var c, v := Select(side, mine.compression, t), Select(side, mine.compression, u);
            OutcomeCompression(side, s, mine, kex, key, cipher, mac)
            == if c.None? || v.None? then Err(NoCommonCompression)
               else OutcomeTail(s2, Names(kex.name, key.name, cipher, mac, FromString(v.value.name),
                                          FromString(c.value.name), !(kex.bothFirst && key.bothFirst)))
  {
  }

  lemma CompressionOutcome(side: Side, ss: seq<Bytes>, tail: Bytes, mine: Preferred,
                           kex: Selection, key: Selection, cipher: Bytes, mac: Option<Bytes>)
    requires |ss| == 10 && Short(ss) && tail != []
    ensures var c, v := Select(side, mine.compression, ss[6]), Select(side, mine.compression, ss[7]);
            OutcomeCompression(side, From(ss, 6, tail), mine, kex, key, cipher, mac)
            == if c.None? || v.None? then Err(NoCommonCompression)
               else Ok(Names(kex.name, key.name, cipher, mac, FromString(v.value.name), FromString(c.value.name),
                             tail[0] != 0 && !(kex.bothFirst && key.bothFirst)))
  {
    NextList(ss, 6, tail);
    NextList(ss, 7, tail);
    CompressionStep(side, From(ss, 6, tail), ss[6], From(ss, 7, tail), ss[7], From(ss, 8, tail), mine, kex, key, cipher, mac);
    forall names
      ensures OutcomeTail(From(ss, 8, tail), names) == Ok(names.(ignoreGuessed := tail[0] != 0 && names.ignoreGuessed))
    {
      TailOutcome(ss, tail, names);
    }
  }

  lemma MacStep(side: Side, s: Bytes, t: Bytes, s1: Bytes, u: Bytes, s2: Bytes, mine: Preferred,
                kex: Selection, key: Selection, cipher: Bytes)
    requires ParseString(s) == Parsed(t, s1) && ParseString(s1) == Parsed(u, s2)
    ensures OutcomeMac(side, s, mine, kex, key, cipher)
            == OutcomeCompression(side, s2, mine, kex, key, cipher, NameOf(Select(side, mine.mac, t)))
  {
  }

  lemma CipherStep(side: Side, s: Bytes, t: Bytes, s1: Bytes, u: Bytes, s2: Bytes, mine: Preferred,
                   kex: Selection, key: Selection)
    requires ParseString(s) == Parsed(t, s1) && ParseString(s1) == Parsed(u, s2)
    ensures var c := Select(side, mine.cipher, t);
            OutcomeCipher(side, s, mine, kex, key)
            == if c.None? then Err(NoCommonCipher) else OutcomeMac(side, s2, mine, kex, key, c.value.name)
  {
  }

  lemma KexStep(side: Side, s: Bytes, t: Bytes, s1: Bytes, u: Bytes, s2: Bytes, mine: Preferred)
    requires ParseString(s) == Parsed(t, s1) && ParseString(s1) == Parsed(u, s2)
    ensures var kex := Select(side, mine.kex, t);
            var key := Select(side, mine.key, u);
            OutcomeKex(side, s, mine)
            == if kex.None? then Err(NoCommonKexAlgo)
               else if key.None? then Err(NoCommonKeyAlgo)
               else OutcomeCipher(side, s2, mine, kex.value, key.value)
  {
  }

  /** The outcome in terms of what this side selects from each list of a packet. */
  function GatheredFrom(side: Side, ss: seq<Bytes>, follows: bool, mine: Preferred): Result<Names, KexError>
    requires |ss| == 10
  {
    Outcome(Select(side, mine.kex, ss[0]), Select(side, mine.key, ss[1]), Select(side, mine.cipher, ss[2]),
            Select(side, mine.mac, ss[4]), Select(side, mine.compression, ss[6]), Select(side, mine.compression, ss[7]), follows)
  }

  function Gathered(side: Side, theirs: Preferred, mine: Preferred): Result<Names, KexError> {
    GatheredFrom(side, WireLists(theirs), false, mine)
  }

  ghost predicate NoEmptyNames(p: Preferred) {
    [] !in p.kex && [] !in p.key && [] !in p.cipher && [] !in p.mac && [] !in p.compression
  }

  /** A list that decides the outcome is chosen from alike; one behind a failure decides
      nothing, and the mac only matters when everything else was found. */
  ghost predicate Agreeable(client: Preferred, server: Preferred) {
    && SameChoice(client.kex, server.kex)
    && (Selected(client.kex, server.kex).None?
        || (&& SameChoice(client.key, server.key)
            && (Selected(client.key, server.key).None?
                || (&& SameChoice(client.cipher, server.cipher)
                    && (Selected(client.cipher, server.cipher).None?
                        || (&& SameChoice(client.compression, server.compression)
                            && (Selected(client.compression, server.compression).None?
                                || SameChoice(client.mac, server.mac))))))))
  }

  lemma GatheredAgrees(client: Preferred, server: Preferred)
    requires Carriable(client) && Carriable(server)
    ensures Gathered(AsServer, client, server) == Gathered(AsClient, server, client) <==> Agreeable(client, server)
    ensures Agreeable(client, server) ==> Gathered(AsServer, client, server) == Negotiated(client, server)
  {
    SelectAgrees(client.kex, server.kex);
    SelectAgrees(client.key, server.key);
    SelectAgrees(client.cipher, server.cipher);
    SelectAgrees(client.mac, server.mac);
    SelectAgrees(client.compression, server.compression);
  }

  lemma ReadOutcomeExact(side: Side, ss: seq<Bytes>, tail: Bytes, mine: Preferred)
    requires |ss| == 10 && Short(ss) && tail != []
    ensures OutcomeKex(side, From(ss, 0, tail), mine) == GatheredFrom(side, ss, tail[0] != 0, mine)
  {
    NextList(ss, 0, tail);
    NextList(ss, 1, tail);
    KexStep(side, From(ss, 0, tail), ss[0], From(ss, 1, tail), ss[1], From(ss, 2, tail), mine);
    var kex, key := Select(side, mine.kex, ss[0]), Select(side, mine.key, ss[1]);
    if kex.Some? && key.Some? {
      CipherOutcome(side, ss, tail, mine, kex.value, key.value);
    }
  }

  lemma CipherOutcome(side: Side, ss: seq<Bytes>, tail: Bytes, mine: Preferred, kex: Selection, key: Selection)
    requires |ss| == 10 && Short(ss) && tail != []
    ensures var cipher, mac := Select(side, mine.cipher, ss[2]), Select(side, mine.mac, ss[4]);
            var c, v := Select(side, mine.compression, ss[6]), Select(side, mine.compression, ss[7]);
            OutcomeCipher(side, From(ss, 2, tail), mine, kex, key)
            == if cipher.None? then Err(NoCommonCipher)
               else if c.None? || v.None? then Err(NoCommonCompression)
               else Ok(Names(kex.name, key.name, cipher.value.name, NameOf(mac), FromString(v.value.name),
                             FromString(c.value.name), tail[0] != 0 && !(kex.bothFirst && key.bothFirst)))
  {
    NextList(ss, 2, tail);
    NextList(ss, 3, tail);
    CipherStep(side, From(ss, 2, tail), ss[2], From(ss, 3, tail), ss[3], From(ss, 4, tail), mine, kex, key);
    var cipher := Select(side, mine.cipher, ss[2]);
    if cipher.Some? {
      NextList(ss, 4, tail);
      NextList(ss, 5, tail);
      MacStep(side, From(ss, 4, tail), ss[4], From(ss, 5, tail), ss[5], From(ss, 6, tail), mine, kex, key, cipher.value.name);
      CompressionOutcome(side, ss, tail, mine, kex, key, cipher.value.name, NameOf(Select(side, mine.mac, ss[4])));
    }
  }

  /** Any packet with ten lists and something behind them: kex, key, cipher and mac come from
      lists 0, 1, 2 and 4, the client's compression from list 6 and the server's from list
      7. A guessed packet is to be ignored exactly if one follows, which the byte behind the
      lists says, and the first choices for kex or key differ. */
  lemma AnyPacket(side: Side, head: Bytes, ss: seq<Bytes>, tail: Bytes, mine: Preferred)
    requires |head| == 17 && |ss| == 10 && Short(ss) && tail != []
    ensures var out := ReadOutcome(side, head + (Strings(ss) + tail), mine);
            var kex, key := Select(side, mine.kex, ss[0]), Select(side, mine.key, ss[1]);
            var cipher, mac := Select(side, mine.cipher, ss[2]), Select(side, mine.mac, ss[4]);
            var c, v := Select(side, mine.compression, ss[6]), Select(side, mine.compression, ss[7]);
            && (out.Ok? <==> kex.Some? && key.Some? && cipher.Some? && c.Some? && v.Some?)
            && (out == Err(NoCommonKexAlgo) <==> kex.None?)
            && (out == Err(NoCommonKeyAlgo) <==> kex.Some? && key.None?)
            && (out.Ok? ==>
                  && out.value.kex == kex.value.name && out.value.key == key.value.name
                  && out.value.cipher == cipher.value.name && out.value.mac == NameOf(mac)
                  && out.value.clientCompression == FromString(c.value.name)
                  && out.value.serverCompression == FromString(v.value.name)
                  && (out.value.ignoreGuessed <==> tail[0] != 0 && !(kex.value.bothFirst && key.value.bothFirst)))
  {
    Cut(head, Strings(ss) + tail);
    assert ss[0..] == ss;
    ReadOutcomeExact(side, ss, tail, mine);
  }

  lemma BodyOfKexBytes(p: Preferred, cookie: Bytes)
    requires |cookie| == 16
    ensures |KexBytes(p, cookie)| >= 17 && KexBytes(p, cookie)[17..] == From(WireLists(p), 0, TAIL)
  {
    assert WireLists(p)[0..] == WireLists(p);
    var head, body := [20] + cookie, Strings(WireLists(p)) + TAIL;
    assert (head + body)[|head|..] == body;
  }

  /** The server reading the client's packet and the client reading the server's reach the
      same algorithms or the same error, the one the preferences determine, exactly when
      the lists that decide are chosen from alike. Non-empty names always are. */
  lemma NegotiationAgrees(client: Preferred, server: Preferred, cookieC: Bytes, cookieS: Bytes)
    requires Carriable(client) && Carriable(server) && |cookieC| == 16 && |cookieS| == 16
    ensures var atServer := ReadOutcome(AsServer, KexBytes(client, cookieC), server);
            var atClient := ReadOutcome(AsClient, KexBytes(server, cookieS), client);
            && (atServer == atClient <==> Agreeable(client, server))
            && (Agreeable(client, server) ==> atServer == Negotiated(client, server))
    ensures NoEmptyNames(client) && NoEmptyNames(server) ==> Agreeable(client, server)
  {
    BodyOfKexBytes(client, cookieC);
    BodyOfKexBytes(server, cookieS);
    ReadOutcomeExact(AsServer, WireLists(client), TAIL, server);
    ReadOutcomeExact(AsClient, WireLists(server), TAIL, client);
    GatheredAgrees(client, server);
  }
}

/** The TLS security oracle over the claims of a run: `TlsSecurityViolationPolicy`. */
module Violations {
  import opened Wrappers
  import opened NameLists
  import opened Terms
  import opened Traces

  datatype Finished = Finished(
    outbound: bool,
    clientRandom: Bytes,
    serverRandom: Bytes,
    sessionId: Bytes,
    authenticatePeer: bool,
    peerCertificate: Bytes,
    masterSecret: Bytes,
    chosenCipher: nat,
    availableCiphers: seq<nat>,
    signatureAlgorithm: int,
    peerSignatureAlgorithm: int)

  datatype ClaimData = FinishedMessage(finished: Finished) | OtherClaim

  datatype TlsClaim = TlsClaim(agent: AgentName, origin: AgentType, version: TlsVersion, data: ClaimData)

  /** The two static certificates that authentication is checked against. */
  datatype Certificates = Certificates(alice: Bytes, bob: Bytes)

  predicate IsInbound(c: TlsClaim) {
    c.data.FinishedMessage? && !c.data.finished.outbound
  }

  /** The inbound Finished claims, in order. */
  function Inbound(claims: seq<TlsClaim>): (r: seq<TlsClaim>)
    ensures forall i :: 0 <= i < |r| ==> IsInbound(r[i])
  {
    if claims == [] then []
    else (if IsInbound(claims[0]) then [claims[0]] else []) + Inbound(claims[1..])
  }

  /** `find_two_finished_messages`: exactly two, from different agents. */
  function FindTwo(claims: seq<TlsClaim>): (r: Option<(TlsClaim, TlsClaim)>)
    ensures r.Some? ==> IsInbound(r.value.0) && IsInbound(r.value.1)
  {
    var fs := Inbound(claims);
    if |fs| == 2 && fs[0].agent != fs[1].agent then Some((fs[0], fs[1])) else None
  }

  /** `get_client_server`: the client's claim first, if the roles differ. */
  function GetClientServer(a: TlsClaim, b: TlsClaim): Option<(TlsClaim, TlsClaim)> {
    match (a.origin, b.origin)
    case (Server, Client) => Some((b, a))
    case (Client, Server) => Some((a, b))
    case _ => None
  }

  /** The first cipher of the server that the client also offers. */
  function BestCipher(server: seq<nat>, client: seq<nat>): Option<nat> {
    if server == [] then None
    else if server[0] in client then Some(server[0])
    else BestCipher(server[1..], client)
  }

  lemma {:induction false} BestCipherSkip(server: seq<nat>, client: seq<nat>, i: nat)
    requires i <= |server| && forall j :: 0 <= j < i ==> server[j] !in client
    ensures BestCipher(server, client) == BestCipher(server[i..], client)
  {
    if i == 0 {
      assert server[0..] == server;
    } else {
      assert server[1..][i - 1..] == server[i..];
      BestCipherSkip(server[1..], client, i - 1);
    }
  }

  method FindBestCipher(server: seq<nat>, client: seq<nat>) returns (cipher: Option<nat>)
    ensures cipher == BestCipher(server, client)
  {
    cipher := None;
    for i := 0 to |server|
      invariant cipher.None? && forall j :: 0 <= j < i ==> server[j] !in client
    {
      if server[i] in client {
        BestCipherSkip(server, client, i);
        return Some(server[i]);
      }
    }
    BestCipherSkip(server, client, |server|);
  }

  function Bypassed(c: TlsClaim, certs: Certificates): bool
    requires IsInbound(c)
  {
    var f := c.data.finished;
    f.authenticatePeer && f.peerCertificate != if c.origin.Server? then certs.bob else certs.alice
  }

  function Mismatch(client: TlsClaim, server: TlsClaim, certs: Certificates): Option<string>
    requires IsInbound(client) && IsInbound(server)
  {
    var c, s := client.data.finished, server.data.finished;
    if client.version != server.version then Some("Mismatching versions")
    else if c.masterSecret != s.masterSecret then Some("Mismatching master secrets")
    else if c.serverRandom != s.serverRandom then Some("Mismatching server random")
    else if c.clientRandom != s.clientRandom then Some("Mismatching client random")
    else if c.chosenCipher != s.chosenCipher then Some("Mismatching ciphers")
    else if c.signatureAlgorithm != s.peerSignatureAlgorithm || s.signatureAlgorithm != c.peerSignatureAlgorithm
    then Some("mismatching signature algorithms")
    else if s.authenticatePeer && s.peerCertificate != certs.bob then Some("Authentication bypass")
    else if c.authenticatePeer && c.peerCertificate != certs.alice then Some("Authentication bypass")
    else if client.version.V1_2? then
      if s.sessionId != [] && c.sessionId != s.sessionId then Some("Mismatching session ids") else None
    else if c.sessionId != s.sessionId then Some("Mismatching session ids")
    else if c.availableCiphers != [] && s.availableCiphers != [] then
      var best := BestCipher(s.availableCiphers, c.availableCiphers);
      if best.Some? && (best.value != s.chosenCipher || best.value != c.chosenCipher)
      then Some("Not the best cipher choosen") else None
    else None
  }

  function Verdict(claims: seq<TlsClaim>, certs: Certificates): Option<string> {
    var two := FindTwo(claims);
    if two.Some? then
      var roles := GetClientServer(two.value.0, two.value.1);
      if roles.Some? then Mismatch(roles.value.0, roles.value.1, certs) else None
    else
      var fs := Inbound(claims);
      if fs != [] && Bypassed(fs[0], certs) then Some("Authentication bypass") else None
  }

  /** `check_violation`, with its loop over the server's ciphers. */
  method CheckViolation(claims: seq<TlsClaim>, certs: Certificates) returns (r: Option<string>)
    ensures r == Verdict(claims, certs)
  {
    var two := FindTwo(claims);
    if two.None? {
      var fs := Inbound(claims);
      if fs != [] {
        if Bypassed(fs[0], certs) {
          return Some("Authentication bypass");
        }
      }
      return None;
    }
    var roles := GetClientServer(two.value.0, two.value.1);
    if roles.None? {
      return None;
    }
    var (client, server) := roles.value;
    var c, s := client.data.finished, server.data.finished;
    if client.version != server.version {
      return Some("Mismatching versions");
    }
    if c.masterSecret != s.masterSecret {
      return Some("Mismatching master secrets");
    }
    if c.serverRandom != s.serverRandom {
      return Some("Mismatching server random");
    }
    if c.clientRandom != s.clientRandom {
      return Some("Mismatching client random");
    }
    if c.chosenCipher != s.chosenCipher {
      return Some("Mismatching ciphers");
    }
    if c.signatureAlgorithm != s.peerSignatureAlgorithm || s.signatureAlgorithm != c.peerSignatureAlgorithm {
      return Some("mismatching signature algorithms");
    }
    if s.authenticatePeer && s.peerCertificate != certs.bob {
      return Some("Authentication bypass");
    }
    if c.authenticatePeer && c.peerCertificate != certs.alice {
      return Some("Authentication bypass");
    }
    match client.version
    case V1_2 =>
      if s.sessionId != [] && c.sessionId != s.sessionId {
        return Some("Mismatching session ids");
      }
      r := None;
    case V1_3 =>
      if c.sessionId != s.sessionId {
        return Some("Mismatching session ids");
      }
      if c.availableCiphers != [] && s.availableCiphers != [] {
        var best := FindBestCipher(s.availableCiphers, c.availableCiphers);
        if best.Some? {
          if best.value != s.chosenCipher {
            return Some("Not the best cipher choosen");
          }
          if best.value != c.chosenCipher {
            return Some("Not the best cipher choosen");
          }
        }
      }
      r := None;
  }

  // ------------------------------------------------------------------ what the verdict means

  /** `best` is the server's first cipher among those the client offers too. */
  ghost predicate IsServersFirstShared(best: nat, server: seq<nat>, client: seq<nat>) {
    exists i :: 0 <= i < |server| && server[i] == best && best in client
                && forall j :: 0 <= j < i ==> server[j] !in client
  }

  lemma {:induction false} BestCipherExact(server: seq<nat>, client: seq<nat>)
    ensures BestCipher(server, client).None? <==> forall x :: x in server ==> x !in client
    ensures BestCipher(server, client).Some? ==>
              IsServersFirstShared(BestCipher(server, client).value, server, client)
  {
    if server != [] {
      if server[0] in client {
        assert IsServersFirstShared(server[0], server, client);
      } else {
        BestCipherExact(server[1..], client);
        assert forall x :: x in server <==> x == server[0] || x in server[1..];
        var best := BestCipher(server[1..], client);
        if best.Some? {
          var i :| 0 <= i < |server| - 1 && server[1..][i] == best.value && best.value in client
                   && forall j :: 0 <= j < i ==> server[1..][j] !in client;
          assert server[i + 1] == best.value;
          assert forall j :: 1 <= j < i + 1 ==> server[j] == server[1..][j - 1];
        }
      }
    }
  }

  /** No server-first shared cipher other than `chosen`. */
  ghost predicate ChoseBest(chosen: nat, server: seq<nat>, client: seq<nat>) {
    forall best :: IsServersFirstShared(best, server, client) ==> best == chosen
  }

  lemma ServersFirstSharedUnique(a: nat, b: nat, server: seq<nat>, client: seq<nat>)
    requires IsServersFirstShared(a, server, client) && IsServersFirstShared(b, server, client)
    ensures a == b
  {
    var i :| 0 <= i < |server| && server[i] == a && a in client && forall j :: 0 <= j < i ==> server[j] !in client;
    var k :| 0 <= k < |server| && server[k] == b && b in client && forall j :: 0 <= j < k ==> server[j] !in client;
    assert i == k;
  }

  /** The two endpoints agree on everything that is compared. */
  ghost predicate Agree(client: TlsClaim, server: TlsClaim, certs: Certificates)
    requires IsInbound(client) && IsInbound(server)
  {
    var c, s := client.data.finished, server.data.finished;
    && client.version == server.version
    && c.masterSecret == s.masterSecret
    && c.clientRandom == s.clientRandom && c.serverRandom == s.serverRandom
    && c.chosenCipher == s.chosenCipher
    && c.signatureAlgorithm == s.peerSignatureAlgorithm && s.signatureAlgorithm == c.peerSignatureAlgorithm
    && (s.authenticatePeer ==> s.peerCertificate == certs.bob)
    && (c.authenticatePeer ==> c.peerCertificate == certs.alice)
    && (client.version.V1_2? ==> s.sessionId == [] || c.sessionId == s.sessionId)
    && (client.version.V1_3? ==> c.sessionId == s.sessionId)
    && (client.version.V1_3? ==> ChoseBest(s.chosenCipher, s.availableCiphers, c.availableCiphers))
  }

  lemma MismatchNoneIff(client: TlsClaim, server: TlsClaim, certs: Certificates)
    requires IsInbound(client) && IsInbound(server)
    ensures Mismatch(client, server, certs).None? <==> Agree(client, server, certs)
  {
    var c, s := client.data.finished, server.data.finished;
    BestCipherExact(s.availableCiphers, c.availableCiphers);
    var best := BestCipher(s.availableCiphers, c.availableCiphers);
    if best.Some? {
      forall b | IsServersFirstShared(b, s.availableCiphers, c.availableCiphers)
        ensures b == best.value
      {
        ServersFirstSharedUnique(b, best.value, s.availableCiphers, c.availableCiphers);
      }
    } else {
      assert ChoseBest(s.chosenCipher, s.availableCiphers, c.availableCiphers);
    }
  }

  /** What the texts mean. */
  lemma MismatchTexts(client: TlsClaim, server: TlsClaim, certs: Certificates)
    requires IsInbound(client) && IsInbound(server)
    ensures var r, c, s := Mismatch(client, server, certs), client.data.finished, server.data.finished;
            && (r == Some("Mismatching versions") <==> client.version != server.version)
            && (r == Some("Mismatching master secrets") ==> c.masterSecret != s.masterSecret)
            && (r == Some("Mismatching server random") ==> c.serverRandom != s.serverRandom)
            && (r == Some("Mismatching client random") ==> c.clientRandom != s.clientRandom)
            && (r == Some("Mismatching ciphers") ==> c.chosenCipher != s.chosenCipher)
            && (r == Some("Mismatching session ids") ==> c.sessionId != s.sessionId)
            && (r == Some("Authentication bypass") ==>
                  (s.authenticatePeer && s.peerCertificate != certs.bob) || (c.authenticatePeer && c.peerCertificate != certs.alice))
            && (r == Some("Not the best cipher choosen") ==>
                  client.version.V1_3? && !ChoseBest(s.chosenCipher, s.availableCiphers, c.availableCiphers))
  {
    MismatchNoneIff(client, server, certs);
    var c, s := client.data.finished, server.data.finished;
    BestCipherExact(s.availableCiphers, c.availableCiphers);
  }

  /** Exactly two inbound Finished claims, from different agents in opposite roles. */
  ghost predicate OneEach(claims: seq<TlsClaim>, client: TlsClaim, server: TlsClaim) {
    && (Inbound(claims) == [client, server] || Inbound(claims) == [server, client])
    && client.agent != server.agent && client.origin.Client? && server.origin.Server?
  }

  lemma OneEachIsInbound(claims: seq<TlsClaim>, client: TlsClaim, server: TlsClaim)
    requires OneEach(claims, client, server)
    ensures IsInbound(client) && IsInbound(server)
  {
    var fs := Inbound(claims);
    assert IsInbound(fs[0]) && IsInbound(fs[1]);
  }

  /** In whatever order the two claims appear and whatever lies between them, the verdict
      is that of the pair, and there is none exactly when the endpoints agree. */
  lemma VerdictOfTwo(claims: seq<TlsClaim>, client: TlsClaim, server: TlsClaim, certs: Certificates)
    requires OneEach(claims, client, server)
    ensures IsInbound(client) && IsInbound(server)
    ensures Verdict(claims, certs) == Mismatch(client, server, certs)
    ensures Verdict(claims, certs).None? <==> Agree(client, server, certs)
  {
    OneEachIsInbound(claims, client, server);
    MismatchNoneIff(client, server, certs);
  }

  lemma {:induction false} InboundConcat(a: seq<TlsClaim>, b: seq<TlsClaim>)
    ensures Inbound(a + b) == Inbound(a) + Inbound(b)
  {
    if a == [] {
      assert a + b == b;
    } else {
      assert (a + b)[1..] == a[1..] + b;
      InboundConcat(a[1..], b);
      Assoc(if IsInbound(a[0]) then [a[0]] else [], Inbound(a[1..]), Inbound(b));
    }
  }

  /** Claims other than inbound Finished ones never matter, wherever they are interleaved. */
  lemma OtherClaimsDoNotMatter(before: seq<TlsClaim>, c: TlsClaim, after: seq<TlsClaim>, certs: Certificates)
    requires !IsInbound(c)
    ensures Verdict(before + [c] + after, certs) == Verdict(before + after, certs)
  {
    var one := [c];
    assert one[1..] == [];
    NoSuffix(Inbound(before));
    assert Inbound(one) == [] + Inbound(one[1..]);
    InboundConcat(before, one);
    InboundConcat(before + one, after);
    InboundConcat(before, after);
  }

  /** Which claims the oracle sees first and how many: by their places in the list. */
  lemma {:induction false} InboundNone(claims: seq<TlsClaim>)
    requires forall i :: 0 <= i < |claims| ==> !IsInbound(claims[i])
    ensures Inbound(claims) == []
  {
    if claims != [] {
      InboundNone(claims[1..]);
    }
  }

  lemma InboundFirst(claims: seq<TlsClaim>, i: nat)
    requires i < |claims| && IsInbound(claims[i]) && forall k :: 0 <= k < i ==> !IsInbound(claims[k])
    ensures Inbound(claims) == [claims[i]] + Inbound(claims[i + 1..])
  {
    var before, after := claims[..i], claims[i..];
    assert claims == before + after && after[1..] == claims[i + 1..];
    InboundConcat(before, after);
    InboundNone(before);
  }

  /** Claims `i` and `j` are the only inbound Finished claims. */
  ghost predicate OnlyTwo(claims: seq<TlsClaim>, i: nat, j: nat) {
    && i < j < |claims|
    && forall k :: 0 <= k < |claims| ==> (IsInbound(claims[k]) <==> k == i || k == j)
  }

  lemma InboundTwo(claims: seq<TlsClaim>, i: nat, j: nat)
    requires OnlyTwo(claims, i, j)
    ensures Inbound(claims) == [claims[i], claims[j]]
  {
    var after := claims[i + 1..];
    InboundFirst(claims, i);
    assert forall k :: 0 <= k < |after| ==> after[k] == claims[i + 1 + k];
    InboundFirst(after, j - i - 1);
    InboundNone(after[j - i..]);
    assert [claims[i]] + ([claims[j]] + []) == [claims[i], claims[j]];
  }

  /** By place: with exactly two inbound Finished claims, of different agents, one of a client
      and one of a server, there is no violation exactly when the two agree; with two of the
      same role there is none. */
  lemma VerdictByPlaces(claims: seq<TlsClaim>, i: nat, j: nat, certs: Certificates)
    requires OnlyTwo(claims, i, j) && claims[i].agent != claims[j].agent
    ensures IsInbound(claims[i]) && IsInbound(claims[j])
    ensures claims[i].origin.Client? && claims[j].origin.Server? ==>
              (Verdict(claims, certs).None? <==> Agree(claims[i], claims[j], certs))
    ensures claims[i].origin.Server? && claims[j].origin.Client? ==>
              (Verdict(claims, certs).None? <==> Agree(claims[j], claims[i], certs))
    ensures claims[i].origin == claims[j].origin ==> Verdict(claims, certs).None?
  {
    InboundTwo(claims, i, j);
    MismatchNoneIff(claims[i], claims[j], certs);
    MismatchNoneIff(claims[j], claims[i], certs);
  }

  /** Without exactly two such claims of different agents only the first inbound Finished
      claim counts. One of a server is a violation exactly when it authenticates its peer
      and the certificate is not bob's, one of a client when it is not alice's. */
  lemma VerdictOtherwise(claims: seq<TlsClaim>, i: nat, certs: Certificates)
    requires i < |claims| && IsInbound(claims[i]) && forall k :: 0 <= k < i ==> !IsInbound(claims[k])
    requires !exists j: nat :: OnlyTwo(claims, i, j) && claims[i].agent != claims[j].agent
    ensures var f := claims[i].data.finished;
            && (claims[i].origin.Server? ==>
                  (Verdict(claims, certs).Some? <==> f.authenticatePeer && f.peerCertificate != certs.bob))
            && (claims[i].origin.Client? ==>
                  (Verdict(claims, certs).Some? <==> f.authenticatePeer && f.peerCertificate != certs.alice))
  {
    InboundFirst(claims, i);
    var fs := Inbound(claims);
    if |fs| == 2 && fs[0].agent != fs[1].agent {
      var j := SecondInbound(claims, i);
    }
  }

  lemma SecondInbound(claims: seq<TlsClaim>, i: nat) returns (j: nat)
    requires i < |claims| && IsInbound(claims[i]) && forall k :: 0 <= k < i ==> !IsInbound(claims[k])
    requires |Inbound(claims)| == 2
    ensures OnlyTwo(claims, i, j) && Inbound(claims) == [claims[i], claims[j]]
  {
    InboundFirst(claims, i);
    var after := claims[i + 1..];
    var k := FirstInbound(after);
    InboundFirst(after, k);
    j := i + 1 + k;
    var tail := after[k + 1..];
    InboundEmpty(tail);
    forall x | 0 <= x < |claims|
      ensures IsInbound(claims[x]) <==> x == i || x == j
    {
      assert i < x < j ==> claims[x] == after[x - i - 1];
      assert x > j ==> claims[x] == tail[x - j - 1];
    }
    InboundTwo(claims, i, j);
  }

  lemma {:induction false} FirstInbound(claims: seq<TlsClaim>) returns (i: nat)
    requires Inbound(claims) != []
    ensures i < |claims| && IsInbound(claims[i]) && forall k :: 0 <= k < i ==> !IsInbound(claims[k])
  {
    i := 0;
    if !IsInbound(claims[0]) {
      i := FirstInbound(claims[1..]);
      i := i + 1;
    }
  }

  lemma {:induction false} InboundEmpty(claims: seq<TlsClaim>)
    requires Inbound(claims) == []
    ensures forall i :: 0 <= i < |claims| ==> !IsInbound(claims[i])
  {
    if claims != [] {
      InboundEmpty(claims[1..]);
    }
  }

  /** Without any inbound Finished claim there is no violation. */
  lemma VerdictOfNone(claims: seq<TlsClaim>, certs: Certificates)
    requires forall i :: 0 <= i < |claims| ==> !IsInbound(claims[i])
    ensures Verdict(claims, certs).None?
  {
    InboundNone(claims);
  }
}

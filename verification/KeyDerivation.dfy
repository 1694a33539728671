/** Key derivation from a finished key exchange (section 7.2 of RFC 4253). */
module KeyDerivation {
  import opened Wrappers
  import opened NameLists

  /** A hash function with a digest of 32 bytes. */
  type Hash = Bytes -> Bytes

  ghost predicate IsSha256Like(h: Hash) {
    forall x :: |h(x)| == 32
  }

  /** What one exchange gives to the derivation: the shared secret as an mpint, if one has
      been computed, the exchange hash and the session id. */
  datatype Exchange = Exchange(secret: Option<Bytes>, exchangeHash: Bytes, sessionId: Bytes) {
    function Base(): Bytes {
      (if secret.Some? then secret.value else []) + exchangeHash
    }
  }

  /** K1 || K2 || ... || Kn with K1 = HASH(K || H || letter || session id) and
      K(i+1) = HASH(K || H || K1 || ... || Ki). */
  function Material(h: Hash, x: Exchange, letter: Byte, n: nat): Bytes
    requires n >= 1
  {
    if n == 1 then h(x.Base() + [letter] + x.sessionId)
    else Material(h, x, letter, n - 1) + h(x.Base() + Material(h, x, letter, n - 1))
  }

  lemma {:induction false} MaterialLength(h: Hash, x: Exchange, letter: Byte, n: nat)
    requires IsSha256Like(h) && n >= 1
    ensures |Material(h, x, letter, n)| == 32 * n
  {
    if n > 1 {
      MaterialLength(h, x, letter, n - 1);
    }
  }

  /** More material never changes what is already there. */
  lemma {:induction false} MaterialGrows(h: Hash, x: Exchange, letter: Byte, m: nat, n: nat)
    requires 1 <= m <= n
    ensures Material(h, x, letter, m) <= Material(h, x, letter, n)
  {
    if m < n {
      MaterialGrows(h, x, letter, m, n - 1);
    }
  }

  /** How many hashes make `len` bytes. */
  function Blocks(len: nat): (n: nat)
    ensures n >= 1 && 32 * n >= len
  {
    if len <= 32 then 1 else (len + 31) / 32
  }

  function Key(h: Hash, x: Exchange, letter: Byte, len: nat): Bytes
    requires IsSha256Like(h)
  {
    MaterialLength(h, x, letter, Blocks(len));
    Material(h, x, letter, Blocks(len))[..len]
  }

  /** `compute_key`: one hash, then more hashes over what is there until it suffices. */
  method ComputeKey(h: Hash, x: Exchange, letter: Byte, len: nat) returns (key: Bytes)
    requires IsSha256Like(h)
    ensures key == Key(h, x, letter, len)
    ensures |key| == len
  {
    var buffer: Bytes := [];
    if x.secret.Some? {
      buffer := buffer + x.secret.value;
    }
    buffer := buffer + x.exchangeHash;
    buffer := buffer + [letter];
    buffer := buffer + x.sessionId;
    assert buffer == x.Base() + [letter] + x.sessionId;
    key := h(buffer);
    ghost var n := 1;
    while |key| < len
      invariant n >= 1 && key == Material(h, x, letter, n) && |key| == 32 * n
      decreases len - |key|
    {
      buffer := [];
      if x.secret.Some? {
        buffer := buffer + x.secret.value;
      }
      buffer := buffer + x.exchangeHash;
      buffer := buffer + key;
      assert buffer == x.Base() + key;
      key := key + h(buffer);
      n := n + 1;
    }
    KeyFromEnough(h, x, letter, len, n);
    key := key[..len];
  }

  /** Any amount of material that suffices gives the same key. */
  lemma KeyFromEnough(h: Hash, x: Exchange, letter: Byte, len: nat, n: nat)
    requires IsSha256Like(h) && n >= 1 && 32 * n >= len
    ensures |Material(h, x, letter, n)| == 32 * n
    ensures Material(h, x, letter, n)[..len] == Key(h, x, letter, len)
  {
    var b := Blocks(len);
    MaterialLength(h, x, letter, n);
    MaterialLength(h, x, letter, b);
    if n <= b {
      MaterialGrows(h, x, letter, n, b);
    } else {
      MaterialGrows(h, x, letter, b, n);
    }
  }

  /** A shorter key is a prefix of a longer one. */
  lemma ShorterKeyIsPrefix(h: Hash, x: Exchange, letter: Byte, short: nat, long: nat)
    requires IsSha256Like(h) && short <= long
    ensures Key(h, x, letter, short) <= Key(h, x, letter, long)
    ensures |Key(h, x, letter, long)| == long
  {
    KeyFromEnough(h, x, letter, short, Blocks(long));
    KeyFromEnough(h, x, letter, long, Blocks(long));
  }

  /** The bytes of the shared secret, if there is one. */
  ghost function Secret(x: Exchange): Bytes {
    if x.secret.Some? then x.secret.value else []
  }

  /** A key, block by block of 32 bytes: the first block is the hash of secret, exchange hash,
      letter and session id; each later one is the hash of secret, exchange hash and all
      of the key before it. A block that is not asked for in full is cut off. */
  lemma KeyByBlocks(h: Hash, x: Exchange, letter: Byte, len: nat, i: nat)
    requires IsSha256Like(h) && 32 * i < len
    ensures |Key(h, x, letter, len)| == len
    ensures var key := Key(h, x, letter, len);
            var block := if i == 0 then h(Secret(x) + x.exchangeHash + [letter] + x.sessionId)
                         else h(Secret(x) + x.exchangeHash + key[..32 * i]);
            if len < 32 * i + 32 then key[32 * i..] == block[..len - 32 * i] else key[32 * i..32 * i + 32] == block
  {
    var n := Blocks(len);
    MaterialLength(h, x, letter, n);
    MaterialBlock(h, x, letter, n, i);
    var m, key := Material(h, x, letter, n), Key(h, x, letter, len);
    assert key == m[..len];
    assert key[..32 * i] == m[..32 * i];
    if len < 32 * i + 32 {
      assert key[32 * i..] == m[32 * i..32 * i + 32][..len - 32 * i];
    } else {
      assert key[32 * i..32 * i + 32] == m[32 * i..32 * i + 32];
    }
  }

  lemma {:induction false} MaterialBlock(h: Hash, x: Exchange, letter: Byte, n: nat, i: nat)
    requires IsSha256Like(h) && i < n
    ensures |Material(h, x, letter, n)| == 32 * n
    ensures var m := Material(h, x, letter, n);
            m[32 * i..32 * i + 32] == if i == 0 then h(Secret(x) + x.exchangeHash + [letter] + x.sessionId)
                                      else h(Secret(x) + x.exchangeHash + m[..32 * i])
  {
    MaterialLength(h, x, letter, n);
    var m := Material(h, x, letter, n);
    if n == 1 {
      assert m[0..32] == m;
    } else {
      var front := Material(h, x, letter, n - 1);
      MaterialLength(h, x, letter, n - 1);
      Cut(front, h(x.Base() + front));
      if i == n - 1 {
        assert m[32 * i..32 * i + 32] == m[|front|..] && m[..32 * i] == front;
      } else {
        MaterialBlock(h, x, letter, n - 1, i);
        assert m[32 * i..32 * i + 32] == front[32 * i..32 * i + 32] && m[..32 * i] == front[..32 * i];
      }
    }
  }

  // ------------------------------------------------------------------ both directions

  datatype Direction = Direction(key: Bytes, nonce: Bytes)

  datatype CipherPair = CipherPair(localToRemote: Direction, remoteToLocal: Direction)

  const A: Byte := 65
  const B: Byte := 66
  const C: Byte := 67
  const D: Byte := 68

  method ComputeKeys(h: Hash, x: Exchange, keyLen: nat, nonceLen: nat, isServer: bool) returns (pair: CipherPair)
    requires IsSha256Like(h)
    ensures pair == Pair(h, x, keyLen, nonceLen, isServer)
  {
    var localToRemote, remoteToLocal := C, D;
    if isServer {
      localToRemote, remoteToLocal := D, C;
    }
    var localToRemoteNonce, remoteToLocalNonce := A, B;
    if isServer {
      localToRemoteNonce, remoteToLocalNonce := B, A;
    }
    var key := ComputeKey(h, x, localToRemote, keyLen);
    var nonce := ComputeKey(h, x, localToRemoteNonce, nonceLen);
    var sealing := Direction(key, nonce);
    key := ComputeKey(h, x, remoteToLocal, keyLen);
    nonce := ComputeKey(h, x, remoteToLocalNonce, nonceLen);
    pair := CipherPair(sealing, Direction(key, nonce));
  }

  /** The letters of section 7.2 of RFC 4253: A and B for the initial IVs, C and D for the
      encryption keys, client to server first. */
  function ClientToServer(h: Hash, x: Exchange, keyLen: nat, nonceLen: nat): Direction
    requires IsSha256Like(h)
  {
    Direction(Key(h, x, C, keyLen), Key(h, x, A, nonceLen))
  }

  function ServerToClient(h: Hash, x: Exchange, keyLen: nat, nonceLen: nat): Direction
    requires IsSha256Like(h)
  {
    Direction(Key(h, x, D, keyLen), Key(h, x, B, nonceLen))
  }

  function Pair(h: Hash, x: Exchange, keyLen: nat, nonceLen: nat, isServer: bool): CipherPair
    requires IsSha256Like(h)
  {
    var c2s, s2c := ClientToServer(h, x, keyLen, nonceLen), ServerToClient(h, x, keyLen, nonceLen);
    if isServer then CipherPair(s2c, c2s) else CipherPair(c2s, s2c)
  }

  /** What one side seals with, the other opens with, in both directions, and every key and
      nonce has the length the cipher asks for. */
  lemma DirectionsMirror(h: Hash, x: Exchange, keyLen: nat, nonceLen: nat)
    requires IsSha256Like(h)
    ensures var client, server := Pair(h, x, keyLen, nonceLen, false), Pair(h, x, keyLen, nonceLen, true);
            && client.localToRemote == server.remoteToLocal
            && server.localToRemote == client.remoteToLocal
            && |client.localToRemote.key| == |server.localToRemote.key| == keyLen
            && |client.localToRemote.nonce| == |server.localToRemote.nonce| == nonceLen
  {
    ShorterKeyIsPrefix(h, x, C, keyLen, keyLen);
    ShorterKeyIsPrefix(h, x, D, keyLen, keyLen);
    ShorterKeyIsPrefix(h, x, A, nonceLen, nonceLen);
    ShorterKeyIsPrefix(h, x, B, nonceLen, nonceLen);
  }

  /** The letters, as section 7.2 of RFC 4253 gives them: the key from client to server is
      derived under "C" and that from server to client under "D", the nonces under "A" and
      "B"; a client sends in the first direction, a server in the second. */
  lemma LettersByRole(h: Hash, x: Exchange, keyLen: nat, nonceLen: nat, isServer: bool)
    requires IsSha256Like(h)
    ensures var pair := Pair(h, x, keyLen, nonceLen, isServer);
            var c2s, s2c := if isServer then pair.remoteToLocal else pair.localToRemote,
                            if isServer then pair.localToRemote else pair.remoteToLocal;
            && StartsUnder(h, x, 65, c2s.nonce) && StartsUnder(h, x, 66, s2c.nonce)
            && StartsUnder(h, x, 67, c2s.key) && StartsUnder(h, x, 68, s2c.key)
  {
    KeyStartsUnder(h, x, 65, nonceLen);
    KeyStartsUnder(h, x, 66, nonceLen);
    KeyStartsUnder(h, x, 67, keyLen);
    KeyStartsUnder(h, x, 68, keyLen);
  }

  /** The first block of the key, as far as the key goes, is that of the letter. */
  ghost predicate StartsUnder(h: Hash, x: Exchange, letter: Byte, key: Bytes) {
    var block := h(Secret(x) + x.exchangeHash + [letter] + x.sessionId);
    if |key| < |block| then key <= block else block <= key
  }

  lemma KeyStartsUnder(h: Hash, x: Exchange, letter: Byte, len: nat)
    requires IsSha256Like(h)
    ensures StartsUnder(h, x, letter, Key(h, x, letter, len))
  {
    if len > 0 {
      KeyByBlocks(h, x, letter, len, 0);
    } else {
      ShorterKeyIsPrefix(h, x, letter, 0, 0);
    }
  }
}

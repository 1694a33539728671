/**
 Wire codecs: the byte `Reader`, big-endian integers, and length-prefixed vectors whose
 length field is patched in place (section 3.4 of RFC 8446).
 */
module Codec {
  import opened Wrappers

  /** A parse attempt at the front of some bytes: a value and what follows it. */
  datatype Parsed<+T> = NoParse | Parsed(value: T, rest: seq<Byte>)

  // ------------------------------------------------------------------ big-endian integers

  /** Field widths in bytes. */
  const U8: nat := 1
  const U32: nat := 4

  function Pow256(n: nat): (p: nat)
    ensures p >= 1
  {
    if n == 0 then 1 else 256 * Pow256(n - 1)
  }

  /** The `n` low-order bytes of `v`, most significant first; higher bytes are cut off, as
      an `as u8` or `as u32` cast does. */
  function BeBytes(v: nat, n: nat): (s: seq<Byte>)
    ensures |s| == n
  {
    if n == 0 then [] else BeBytes(v / 256, n - 1) + [v % 256]
  }

  function BeValue(s: seq<Byte>): (v: nat)
  {
    if s == [] then 0 else 256 * BeValue(s[..|s| - 1]) + s[|s| - 1]
  }

  function ParseUint(s: seq<Byte>, n: nat): Parsed<nat> {
    if |s| < n then NoParse else Parsed(BeValue(s[..n]), s[n..])
  }

  lemma {:induction false} BeValueBound(s: seq<Byte>)
    ensures BeValue(s) < Pow256(|s|)
  {
    if s != [] {
      BeValueBound(s[..|s| - 1]);
    }
  }

  /** Encoding then decoding an integer gives it back exactly when it fits the width. */
  lemma {:induction false} UintRoundTrip(v: nat, n: nat)
    ensures BeValue(BeBytes(v, n)) == v <==> v < Pow256(n)
  {
    BeValueBound(BeBytes(v, n));
    if n > 0 {
      var s := BeBytes(v, n);
      assert s[..n - 1] == BeBytes(v / 256, n - 1);
      UintRoundTrip(v / 256, n - 1);
    }
  }

  /** Decoding then encoding gives the bytes back. */
  lemma {:induction false} BytesRoundTrip(s: seq<Byte>)
    ensures BeBytes(BeValue(s), |s|) == s
  {
    if s != [] {
      var n := |s| - 1;
      var hi, lo := BeValue(s[..n]), s[n] as int;
      assert (256 * hi + lo) / 256 == hi && (256 * hi + lo) % 256 == lo;
      BytesRoundTrip(s[..n]);
      assert s == s[..n] + [s[n]];
    }
  }

  /** Byte `i` of an integer of `n` bytes, most significant first. */
  lemma {:induction false} BeBytesByDigit(v: nat, n: nat, i: nat)
    requires i < n
    ensures BeBytes(v, n)[i] == v / Pow256(n - 1 - i) % 256
  {
    if i < n - 1 {
      BeBytesByDigit(v / 256, n - 1, i);
      DivTwice(v, Pow256(n - 2 - i));
    }
  }

  lemma DivTwice(v: nat, p: nat)
    requires p >= 1
    ensures v / 256 / p == v / (256 * p)
  {
    var q := v / 256 / p;
    var r1, r2 := v % 256, v / 256 % p;
    assert v == 256 * (p * q + r2) + r1;
    assert v == (256 * p) * q + (256 * r2 + r1);
    assert 0 <= 256 * r2 + r1 < 256 * p;
    DivUnique(v, 256 * p, q, 256 * r2 + r1);
  }

  lemma DivUnique(v: nat, d: nat, q: nat, r: nat)
    requires d >= 1 && v == d * q + r && r < d
    ensures v / d == q
  {
    var k := v / d - q;
    assert v == d * (v / d) + v % d;
    assert d * k == d * (v / d) - d * q;
    MulAtLeast(d, if k >= 1 then k else if k <= -1 then -k else 1);
  }

  lemma MulAtLeast(d: nat, k: nat)
    requires k >= 1
    ensures d * k >= d
  {
  }

  lemma ParseUintExact(v: nat, n: nat, suffix: seq<Byte>)
    ensures ParseUint(BeBytes(v, n) + suffix, n).Parsed?
    ensures ParseUint(BeBytes(v, n) + suffix, n).rest == suffix
    ensures ParseUint(BeBytes(v, n) + suffix, n).value == BeValue(BeBytes(v, n))
    ensures ParseUint(BeBytes(v, n) + suffix, n).value == v <==> v < Pow256(n)
  {
    var s := BeBytes(v, n) + suffix;
    assert s[..n] == BeBytes(v, n) && s[n..] == suffix;
    UintRoundTrip(v, n);
  }

  /** An imperative read that returned `out` and left `rest` does what the parser `p` says. */
  ghost predicate Agrees<T>(out: Option<T>, rest: seq<Byte>, p: Parsed<T>) {
    (out.Some? <==> p.Parsed?) && (out.Some? ==> Parsed(out.value, rest) == p)
  }

  // ------------------------------------------------------------------ readers and buffers

  /** `Reader`: a cursor over a byte slice. */
  class Reader {
    const buf: seq<Byte>
    var offs: nat

    ghost predicate Valid()
      reads this
    {
      offs <= |buf|
    }

    ghost function Rest(): seq<Byte>
      requires Valid()
      reads this
    {
      buf[offs..]
    }

    constructor (bytes: seq<Byte>)
      ensures Valid() && buf == bytes && offs == 0 && Rest() == bytes
    {
      buf, offs := bytes, 0;
    }

    function Left(): (n: nat)
      requires Valid()
      reads this
      ensures n == |Rest()|
    {
      |buf| - offs
    }

    predicate AnyLeft()
      requires Valid()
      reads this
      ensures AnyLeft() <==> Rest() != []
    {
      offs < |buf|
    }

    /** All or nothing: either `len` bytes are handed out and the cursor moves past them,
        or nothing changes. */
    method Take(len: nat) returns (r: Option<seq<Byte>>)
      requires Valid()
      modifies this
      ensures Valid()
      ensures r.Some? <==> len <= |old(Rest())|
      ensures r.Some? ==> r.value == old(Rest())[..len] && Rest() == old(Rest())[len..]
      ensures r.None? ==> offs == old(offs)
    {
      if Left() < len {
        return None;
      }
      var current := offs;
      offs := offs + len;
      r := Some(buf[current..current + len]);
    }

    function Peek(len: nat): (r: Option<seq<Byte>>)
      requires Valid()
      reads this
      ensures r.Some? <==> len <= |Rest()|
      ensures r.Some? ==> r.value == Rest()[..len]
    {
      if Left() < len then None else Some(buf[offs..offs + len])
    }

    method Sub(len: nat) returns (r: Option<Reader>)
      requires Valid()
      modifies this
      ensures Valid()
      ensures r.Some? <==> len <= |old(Rest())|
      ensures r.Some? ==> fresh(r.value) && r.value.Valid()
                          && r.value.Rest() == old(Rest())[..len] && Rest() == old(Rest())[len..]
      ensures r.None? ==> offs == old(offs)
    {
      var taken := Take(len);
      if taken.None? {
        return None;
      }
      var sub := new Reader(taken.value);
      r := Some(sub);
    }

    method ReadUint(n: nat) returns (r: Option<nat>)
      requires Valid()
      modifies this
      ensures Valid()
      ensures Agrees(r, Rest(), ParseUint(old(Rest()), n))
      ensures r.None? ==> offs == old(offs)
    {
      var bytes := Take(n);
      r := if bytes.None? then None else Some(BeValue(bytes.value));
    }
  }

  /** A growing byte vector. */
  class Buffer {
    var bytes: seq<Byte>

    constructor ()
      ensures bytes == []
    {
      bytes := [];
    }
  }

  // ------------------------------------------------------------------ vectors of any element

  /** The `Codec` of an element type. */
  datatype Codec<!T> = Codec(encode: T -> seq<Byte>, parse: seq<Byte> -> Parsed<T>)

  /** A successful parse consumes at least one byte and leaves the rest untouched. */
  ghost predicate Progresses<T>(c: Codec<T>) {
    forall s :: c.parse(s).Parsed? ==>
                  |c.parse(s).rest| < |s| && c.parse(s).rest == s[|s| - |c.parse(s).rest|..]
  }

  /** `x` comes back from its encoding, whatever follows it. */
  ghost predicate RoundTrips<T(!new)>(c: Codec<T>, x: T) {
    forall suffix :: c.parse(c.encode(x) + suffix) == Parsed(x, suffix)
  }

  /** The codec of an unsigned integer of `n` bytes. */
  function UintCodec(n: nat): Codec<nat> {
    Codec((v: nat) => BeBytes(v, n), (s: seq<Byte>) => ParseUint(s, n))
  }

  /** It meets both laws, for every value that fits. */
  lemma UintCodecIsLawful(n: nat, v: nat)
    requires n >= 1
    ensures Progresses(UintCodec(n))
    ensures RoundTrips(UintCodec(n), v) <==> v < Pow256(n)
  {
    var c := UintCodec(n);
    forall suffix
      ensures c.parse(c.encode(v) + suffix) == Parsed(v, suffix) <==> v < Pow256(n)
    {
      ParseUintExact(v, n, suffix);
    }
    if RoundTrips(c, v) {
      assert c.parse(c.encode(v) + []) == Parsed(v, []);
    }
  }

  function Body<T>(items: seq<T>, c: Codec<T>): seq<Byte> {
    if items == [] then [] else c.encode(items[0]) + Body(items[1..], c)
  }

  lemma {:induction false} BodySnoc<T>(items: seq<T>, x: T, c: Codec<T>)
    ensures Body(items + [x], c) == Body(items, c) + c.encode(x)
  {
    if items == [] {
      assert [x][1..] == [];
      assert c.encode(x) + [] == c.encode(x);
    } else {
      assert (items + [x])[1..] == items[1..] + [x];
      BodySnoc(items[1..], x, c);
    }
  }

  /** A vector on the wire: the length of the body in `width` bytes, then the body. */
  function EncVec<T>(items: seq<T>, width: nat, c: Codec<T>): seq<Byte> {
    BeBytes(|Body(items, c)|, width) + Body(items, c)
  }

  /** Where item `i` starts in the body. */
  ghost function ItemOffset<T>(items: seq<T>, i: nat, c: Codec<T>): nat
    requires i <= |items|
  {
    |Body(items[..i], c)|
  }

  /** On the wire: the length of the body, most significant byte first, then each item behind
      the items before it. */
  lemma VecLayout<T>(items: seq<T>, width: nat, c: Codec<T>, i: nat)
    requires i < |items|
    ensures var s, o := EncVec(items, width, c), width + ItemOffset(items, i, c);
            && |s| == width + |Body(items, c)| && s[..width] == BeBytes(|s| - width, width)
            && o + |c.encode(items[i])| <= |s| && s[o..o + |c.encode(items[i])|] == c.encode(items[i])
            && ItemOffset(items, i + 1, c) == ItemOffset(items, i, c) + |c.encode(items[i])|
  {
    var front, back := items[..i], items[i + 1..];
    assert items[..i + 1] == front + [items[i]] && items == front + [items[i]] + back;
    BodySnoc(front, items[i], c);
    BodyConcat(front + [items[i]], back, c);
    var len := BeBytes(|Body(items, c)|, width);
    assert EncVec(items, width, c) == len + (Body(front, c) + c.encode(items[i]) + Body(back, c));
  }

  lemma {:induction false} BodyConcat<T>(a: seq<T>, b: seq<T>, c: Codec<T>)
    ensures Body(a + b, c) == Body(a, c) + Body(b, c)
  {
    if a == [] {
      assert a + b == b;
    } else {
      assert (a + b)[1..] == a[1..] + b;
      BodyConcat(a[1..], b, c);
    }
  }

  /** Elements until the bytes run out. */
  ghost function ParseAll<T>(s: seq<Byte>, c: Codec<T>): Option<seq<T>>
    requires Progresses(c)
    decreases |s|
  {
    if s == [] then Some([])
    else
      match c.parse(s)
      case NoParse => None
      case Parsed(x, rest) =>
        Prepend([x], ParseAll(rest, c))
  }

  ghost function ParseVec<T>(s: seq<Byte>, width: nat, limit: Option<nat>, c: Codec<T>): Parsed<seq<T>>
    requires Progresses(c)
  {
    match ParseUint(s, width)
    case NoParse => NoParse
    case Parsed(len, rest) =>
      if (limit.Some? && len > limit.value) || len > |rest| then NoParse
      else
        var items := ParseAll(rest[..len], c);
        if items.None? then NoParse else Parsed(items.value, rest[len..])
  }

  /** `encode_vec_u8`, `encode_vec_u16`, `encode_vec_u24` for widths 1, 2, 3: a zero length
      field first, then the items, then the length is written over the zeros. */
  method EncodeVec<T>(buf: Buffer, items: seq<T>, width: nat, c: Codec<T>)
    modifies buf
    ensures buf.bytes == old(buf.bytes) + EncVec(items, width, c)
  {
    var lenOffset := |buf.bytes|;
    buf.bytes := buf.bytes + seq(width, _ => 0);
    ghost var head := buf.bytes;
    for i := 0 to |items|
      invariant buf.bytes == head + Body(items[..i], c)
    {
      assert items[..i + 1] == items[..i] + [items[i]];
      BodySnoc(items[..i], items[i], c);
      Assoc(head, Body(items[..i], c), c.encode(items[i]));
      buf.bytes := buf.bytes + c.encode(items[i]);
    }
    assert items[..|items|] == items;
    var len := |buf.bytes| - lenOffset - width;
    buf.bytes := buf.bytes[..lenOffset] + BeBytes(len, width) + buf.bytes[lenOffset + width..];
    Assoc(old(buf.bytes), BeBytes(len, width), Body(items, c));
  }

  /** `read_vec_u8`, `read_vec_u16` and, with a limit, `read_vec_u24_limited`. */
  method ReadVec<T>(r: Reader, width: nat, limit: Option<nat>, c: Codec<T>) returns (out: Option<seq<T>>)
    requires r.Valid() && Progresses(c)
    modifies r
    ensures r.Valid()
    ensures Agrees(out, r.Rest(), ParseVec(old(r.Rest()), width, limit, c))
  {
    var len := r.ReadUint(width);
    if len.None? || (limit.Some? && len.value > limit.value) {
      return None;
    }
    var sub := r.Sub(len.value);
    if sub.None? {
      return None;
    }
    out := ReadItems(sub.value, c);
  }

  ghost function Prepend<T>(xs: seq<T>, o: Option<seq<T>>): Option<seq<T>> {
    if o.None? then None else Some(xs + o.value)
  }

  lemma PrependOne<T>(xs: seq<T>, x: T, o: Option<seq<T>>)
    ensures Prepend(xs, Prepend([x], o)) == Prepend(xs + [x], o)
  {
    if o.Some? {
      assert xs + ([x] + o.value) == (xs + [x]) + o.value;
    }
  }

  lemma PrependNothing<T>(o: Option<seq<T>>)
    ensures Prepend([], o) == o
  {
    if o.Some? {
      assert [] + o.value == o.value;
    }
  }

  method ReadItems<T>(sub: Reader, c: Codec<T>) returns (out: Option<seq<T>>)
    requires sub.Valid() && Progresses(c)
    modifies sub
    ensures out == ParseAll(old(sub.Rest()), c)
  {
    var ret: seq<T> := [];
    PrependNothing(ParseAll(sub.Rest(), c));
    while sub.AnyLeft()
      invariant sub.Valid()
      invariant ParseAll(old(sub.Rest()), c) == Prepend(ret, ParseAll(sub.Rest(), c))
      decreases |sub.Rest()|
    {
      var item := c.parse(sub.buf[sub.offs..]);
      if item.NoParse? {
        return None;
      }
      sub.offs := |sub.buf| - |item.rest|;
      assert sub.Rest() == item.rest;
      PrependOne(ret, item.value, ParseAll(item.rest, c));
      ret := ret + [item.value];
    }
    assert ret + [] == ret;
    out := Some(ret);
  }

  lemma {:induction false} ParseBody<T(!new)>(items: seq<T>, c: Codec<T>)
    requires Progresses(c) && forall x :: x in items ==> RoundTrips(c, x)
    ensures ParseAll(Body(items, c), c) == Some(items)
  {
    if items != [] {
      var rest := Body(items[1..], c);
      assert RoundTrips(c, items[0]);
      assert c.parse(c.encode(items[0]) + rest) == Parsed(items[0], rest);
      ParseBody(items[1..], c);
      assert items == [items[0]] + items[1..];
    }
  }

  /** A vector of round-tripping elements round-trips, with whatever follows it left in
      place, exactly when its body fits the length field and the limit. */
  lemma VecRoundTrip<T(!new)>(items: seq<T>, width: nat, limit: Option<nat>, c: Codec<T>, suffix: seq<Byte>)
    requires Progresses(c) && forall x :: x in items ==> RoundTrips(c, x)
    ensures ParseVec(EncVec(items, width, c) + suffix, width, limit, c) == Parsed(items, suffix) <==>
            |Body(items, c)| < Pow256(width) && (limit.Some? ==> |Body(items, c)| <= limit.value)
  {
    var body := Body(items, c);
    var s := EncVec(items, width, c) + suffix;
    assert s == BeBytes(|body|, width) + (body + suffix);
    ParseUintExact(|body|, width, body + suffix);
    BeValueBound(BeBytes(|body|, width));
    if |body| < Pow256(width) {
      assert (body + suffix)[..|body|] == body && (body + suffix)[|body|..] == suffix;
      ParseBody(items, c);
    } else {
      var len := BeValue(BeBytes(|body|, width));
      assert |(body + suffix)[len..]| > |suffix|;
    }
  }
}

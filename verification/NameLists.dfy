/** Comma-separated names (section 5 of RFC 4251) and UTF-8 validity (RFC 3629). */
module NameLists {
  import opened Wrappers

  type Bytes = seq<Byte>

  const COMMA: Byte := 44

  ghost predicate CommaFree(names: seq<Bytes>) {
    forall i :: 0 <= i < |names| ==> COMMA !in names[i]
  }

  /** `names.join(",")`. */
  function Join(names: seq<Bytes>): Bytes {
    if names == [] then []
    else if |names| == 1 then names[0]
    else names[0] + [COMMA] + Join(names[1..])
  }

  /** `split(',')`: always at least one piece. */
  function Split(s: Bytes): (pieces: seq<Bytes>)
    ensures |pieces| >= 1
  {
    if s == [] then [[]]
    else if s[0] == COMMA then [[]] + Split(s[1..])
    else
      var more := Split(s[1..]);
      [[s[0]] + more[0]] + more[1..]
  }

  lemma {:induction false} SplitCommaFree(s: Bytes)
    ensures CommaFree(Split(s))
  {
    if s != [] {
      SplitCommaFree(s[1..]);
    }
  }

  lemma {:induction false} SplitFirst(a: Bytes, rest: Bytes)
    requires COMMA !in a
    ensures Split(a) == [a]
    ensures Split(a + [COMMA] + rest) == [a] + Split(rest)
  {
    var s := a + [COMMA] + rest;
    if a == [] {
      assert s[1..] == rest;
    } else {
      assert s[1..] == a[1..] + [COMMA] + rest;
      SplitFirst(a[1..], rest);
      assert [a[0]] + a[1..] == a;
      assert ([a[1..]] + Split(rest))[1..] == Split(rest);
    }
  }

  lemma {:induction false} SplitJoinForward(names: seq<Bytes>)
    requires names != [] && CommaFree(names)
    ensures Split(Join(names)) == names
  {
    if |names| == 1 {
      SplitFirst(names[0], []);
    } else {
      SplitFirst(names[0], Join(names[1..]));
      SplitJoinForward(names[1..]);
      assert names == [names[0]] + names[1..];
    }
  }

  /** Splitting undoes joining exactly for comma-free names. */
  lemma SplitJoin(names: seq<Bytes>)
    requires names != []
    ensures Split(Join(names)) == names <==> CommaFree(names)
  {
    SplitCommaFree(Join(names));
    if CommaFree(names) {
      SplitJoinForward(names);
    }
  }

  lemma {:induction false} JoinLengthPositive(names: seq<Bytes>)
    ensures |Join(names)| == 0 <==> names == [] || names == [[]]
  {
    if |names| == 1 {
      assert names == [names[0]];
    }
  }

  /** Joining undoes splitting always. */
  lemma {:induction false} JoinSplit(s: Bytes)
    ensures Join(Split(s)) == s
  {
    if s != [] {
      JoinSplit(s[1..]);
      var more := Split(s[1..]);
      if s[0] == COMMA {
        assert Split(s)[1..] == more;
        assert s == [] + [COMMA] + s[1..];
      } else {
        var head := [s[0]] + more[0];
        assert Split(s)[0] == head && Split(s)[1..] == more[1..];
        assert s == [s[0]] + s[1..];
        if |more| > 1 {
          assert head + [COMMA] + Join(more[1..]) == [s[0]] + (more[0] + [COMMA] + Join(more[1..]));
        }
      }
    }
  }

  /** Where name `i` starts in the joined text. */
  ghost function Offset(names: seq<Bytes>, i: nat): nat
    requires i <= |names|
  {
    if i == 0 then 0 else Offset(names, i - 1) + |names[i - 1]| + 1
  }

  lemma {:induction false} OffsetOfTail(names: seq<Bytes>, i: nat)
    requires 1 <= i <= |names|
    ensures Offset(names, i) == |names[0]| + 1 + Offset(names[1..], i - 1)
  {
    if i > 1 {
      OffsetOfTail(names, i - 1);
    }
  }

  lemma SliceBehind(head: Bytes, rest: Bytes, o: nat, n: nat)
    requires o + n <= |rest|
    ensures (head + rest)[|head| + o..|head| + o + n] == rest[o..o + n]
  {
  }

  /** Name `i` stands at its offset, with a comma, byte 44, behind it unless it is the last. */
  ghost predicate NameStands(names: seq<Bytes>, i: nat, text: Bytes)
    requires i < |names|
  {
    var o := Offset(names, i);
    && o + |names[i]| <= |text| && text[o..o + |names[i]|] == names[i]
    && (i < |names| - 1 ==> o + |names[i]| < |text| && text[o + |names[i]|] == 44)
  }

  /** The joined text holds each name at its offset, and nothing else. */
  lemma {:induction false} JoinLayout(names: seq<Bytes>, i: nat)
    requires i < |names|
    ensures |Join(names)| == Offset(names, |names|) - 1
    ensures NameStands(names, i, Join(names))
    decreases |names|
  {
    if |names| == 1 {
      assert names[0][0..|names[0]|] == names[0];
    } else {
      var rest, head := names[1..], names[0] + [COMMA];
      OffsetOfTail(names, |names|);
      JoinLayout(rest, if i == 0 then 0 else i - 1);
      if i > 0 {
        LaterNameStands(names, i, head, Join(rest));
      } else {
        assert (head + Join(rest))[0..|names[0]|] == names[0];
      }
    }
  }

  lemma LaterNameStands(names: seq<Bytes>, i: nat, head: Bytes, text: Bytes)
    requires 0 < i < |names| && |head| == |names[0]| + 1 && NameStands(names[1..], i - 1, text)
    ensures NameStands(names, i, head + text)
  {
    OffsetOfTail(names, i);
    SliceBehind(head, text, Offset(names[1..], i - 1), |names[i]|);
  }

  // ------------------------------------------------------------------ UTF-8

  predicate Continuation(b: Byte) {
    0x80 <= b <= 0xBF
  }

  /** The length of the well-formed character at the front, or 0. */
  function CharLength(s: Bytes): (n: nat)
    ensures n <= |s|
  {
    if s == [] then 0
    else if s[0] < 0x80 then 1
    else if 0xC2 <= s[0] <= 0xDF && |s| >= 2 && Continuation(s[1]) then 2
    else if 0xE0 <= s[0] <= 0xEF && |s| >= 3 && Continuation(s[1]) && Continuation(s[2])
            && (s[0] == 0xE0 ==> s[1] >= 0xA0) && (s[0] == 0xED ==> s[1] <= 0x9F) then 3
    else if 0xF0 <= s[0] <= 0xF4 && |s| >= 4 && Continuation(s[1]) && Continuation(s[2]) && Continuation(s[3])
            && (s[0] == 0xF0 ==> s[1] >= 0x90) && (s[0] == 0xF4 ==> s[1] <= 0x8F) then 4
    else 0
  }

  predicate Utf8(s: Bytes)
    decreases |s|
  {
    s == [] || (CharLength(s) > 0 && Utf8(s[CharLength(s)..]))
  }

  lemma {:induction false} Utf8Concat(a: Bytes, b: Bytes)
    requires Utf8(a) && Utf8(b)
    ensures Utf8(a + b)
    decreases |a|
  {
    if a == [] {
      assert a + b == b;
    } else {
      var n := CharLength(a);
      assert CharLength(a + b) == n;
      assert (a + b)[n..] == a[n..] + b;
      Utf8Concat(a[n..], b);
    }
  }

  ghost predicate AllUtf8(names: seq<Bytes>) {
    forall i :: 0 <= i < |names| ==> Utf8(names[i])
  }

  lemma {:induction false} Utf8Join(names: seq<Bytes>)
    requires AllUtf8(names)
    ensures Utf8(Join(names))
  {
    if |names| > 1 {
      Utf8Join(names[1..]);
      assert Utf8([COMMA]);
      Utf8Concat(names[0], [COMMA]);
      Utf8Concat(names[0] + [COMMA], Join(names[1..]));
    }
  }

  // ------------------------------------------------------------------ what UTF-8 is

  /** A Unicode scalar value. */
  ghost predicate IsScalar(c: int) {
    0 <= c < 0xD800 || 0xE000 <= c <= 0x10FFFF
  }

  /** Its encoding, as section 3 of RFC 3629 gives it. */
  ghost function EncodeChar(c: int): (s: Bytes)
    requires IsScalar(c)
    ensures |s| >= 1
  {
    if c < 0x80 then [c]
    else if c < 0x800 then [0xC0 + c / 0x40, 0x80 + c % 0x40]
    else if c < 0x10000 then [0xE0 + c / 0x1000, 0x80 + c / 0x40 % 0x40, 0x80 + c % 0x40]
    else [0xF0 + c / 0x40000, 0x80 + c / 0x1000 % 0x40, 0x80 + c / 0x40 % 0x40, 0x80 + c % 0x40]
  }

  ghost predicate AllScalars(cs: seq<int>) {
    forall i :: 0 <= i < |cs| ==> IsScalar(cs[i])
  }

  ghost function EncodeText(cs: seq<int>): Bytes
    requires AllScalars(cs)
  {
    if cs == [] then [] else EncodeChar(cs[0]) + EncodeText(cs[1..])
  }

  lemma EncodedChar(c: int, rest: Bytes)
    requires IsScalar(c)
    ensures CharLength(EncodeChar(c) + rest) == |EncodeChar(c)|
  {
    var s := EncodeChar(c) + rest;
    assert forall i :: 0 <= i < |EncodeChar(c)| ==> s[i] == EncodeChar(c)[i];
    if 0x800 <= c < 0x10000 {
      ThreeBytes(c);
    } else if c >= 0x10000 {
      FourBytes(c);
    }
  }

  lemma ThreeBytes(c: int)
    requires 0x800 <= c < 0x10000 && IsScalar(c)
    ensures 0 <= c / 0x1000 <= 0xF && 0 <= c / 0x40 % 0x40 < 0x40
    ensures c / 0x1000 == 0 ==> c / 0x40 % 0x40 >= 0x20
    ensures c / 0x1000 == 0xD ==> c / 0x40 % 0x40 < 0x20
  {
    assert c / 0x40 == 0x40 * (c / 0x1000) + c / 0x40 % 0x40;
  }

  lemma FourBytes(c: int)
    requires 0x10000 <= c <= 0x10FFFF
    ensures 0 <= c / 0x40000 <= 4
    ensures c / 0x40000 == 0 ==> c / 0x1000 % 0x40 >= 0x10
    ensures c / 0x40000 == 4 ==> c / 0x1000 % 0x40 < 0x10
  {
    assert c / 0x1000 == 0x40 * (c / 0x40000) + c / 0x1000 % 0x40;
  }

  lemma DecodedThree(a: int, b: int, d: int) returns (c: int)
    requires 0xE0 <= a <= 0xEF && 0x80 <= b <= 0xBF && 0x80 <= d <= 0xBF
    requires (a == 0xE0 ==> b >= 0xA0) && (a == 0xED ==> b <= 0x9F)
    ensures IsScalar(c) && EncodeChar(c) == [a, b, d]
  {
    c := 0x1000 * (a - 0xE0) + 0x40 * (b - 0x80) + (d - 0x80);
    assert c / 0x40 == 0x40 * (a - 0xE0) + (b - 0x80);
    assert c / 0x1000 == a - 0xE0;
  }

  lemma DecodedFour(a: int, b: int, d: int, e: int) returns (c: int)
    requires 0xF0 <= a <= 0xF4 && 0x80 <= b <= 0xBF && 0x80 <= d <= 0xBF && 0x80 <= e <= 0xBF
    requires (a == 0xF0 ==> b >= 0x90) && (a == 0xF4 ==> b <= 0x8F)
    ensures IsScalar(c) && EncodeChar(c) == [a, b, d, e]
  {
    c := 0x40000 * (a - 0xF0) + 0x1000 * (b - 0x80) + 0x40 * (d - 0x80) + (e - 0x80);
    assert c / 0x40 == 0x1000 * (a - 0xF0) + 0x40 * (b - 0x80) + (d - 0x80);
    assert c / 0x1000 == 0x40 * (a - 0xF0) + (b - 0x80);
    assert c / 0x40000 == a - 0xF0;
  }

  /** The character at the front of well-formed bytes. */
  lemma DecodedChar(s: Bytes) returns (c: int)
    requires CharLength(s) > 0
    ensures IsScalar(c) && EncodeChar(c) == s[..CharLength(s)]
  {
    var n := CharLength(s);
    var a: int := s[0];
    if n == 1 {
      c := a;
    } else if n == 2 {
      var b: int := s[1];
      c := 0x40 * (a - 0xC0) + (b - 0x80);
    } else if n == 3 {
      c := DecodedThree(a, s[1], s[2]);
      assert s[..3] == [s[0], s[1], s[2]];
    } else {
      c := DecodedFour(a, s[1], s[2], s[3]);
      assert s[..4] == [s[0], s[1], s[2], s[3]];
    }
  }

  lemma {:induction false} EncodedText(cs: seq<int>)
    requires AllScalars(cs)
    ensures Utf8(EncodeText(cs))
  {
    if cs != [] {
      var rest := EncodeText(cs[1..]);
      EncodedText(cs[1..]);
      EncodedChar(cs[0], rest);
      Cut(EncodeChar(cs[0]), rest);
    }
  }

  lemma {:induction false} DecodedText(s: Bytes) returns (cs: seq<int>)
    requires Utf8(s)
    ensures AllScalars(cs) && EncodeText(cs) == s
    decreases |s|
  {
    cs := [];
    if s != [] {
      var n := CharLength(s);
      var c := DecodedChar(s);
      var more := DecodedText(s[n..]);
      cs := [c] + more;
      TextMore(c, more);
      assert s == s[..n] + s[n..];
    }
  }

  lemma TextMore(c: int, more: seq<int>)
    requires IsScalar(c) && AllScalars(more)
    ensures AllScalars([c] + more) && EncodeText([c] + more) == EncodeChar(c) + EncodeText(more)
  {
    var cs := [c] + more;
    assert cs[0] == c && cs[1..] == more;
  }

  ghost predicate Spells(cs: seq<int>, s: Bytes) {
    AllScalars(cs) && EncodeText(cs) == s
  }

  /** The bytes that are accepted are exactly the encodings of Unicode texts. */
  lemma Utf8Iff(s: Bytes)
    ensures Utf8(s) <==> exists cs :: Spells(cs, s)
  {
    if Utf8(s) {
      var cs := DecodedText(s);
      assert Spells(cs, s);
    }
    if cs :| Spells(cs, s) {
      EncodedText(cs);
    }
  }
}

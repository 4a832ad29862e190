/** UTF-8 text (section 3 of RFC 3629): characters, their bytes, and the
    byte positions at which characters begin. */
module Utf8 {

  newtype Byte = b: int | 0 <= b < 256

  /** One to four bytes; only a one-byte character has a byte below 0x80. */
  function EncodeChar(c: char): (r: seq<Byte>)
    ensures 1 <= |r| <= 4
    ensures c as int < 0x80 ==> r == [c as int as Byte]
    ensures c as int >= 0x80 ==> forall i :: 0 <= i < |r| ==> r[i] >= 0x80
    ensures forall i :: 0 <= i < |r| ==> (IsContinuation(r[i]) <==> i > 0)
  {
    var n := c as int;
    if n < 0x80 then [n as Byte]
    else if n < 0x800 then [(0xC0 + n / 0x40) as Byte, Continuation(n)]
    else if n < 0x1_0000 then [(0xE0 + n / 0x1000) as Byte, Continuation(n / 0x40), Continuation(n)]
    else
      [(0xF0 + n / 0x4_0000) as Byte, Continuation(n / 0x1000), Continuation(n / 0x40), Continuation(n)]
  }

  /** The bits of the character, six in each byte behind the first, give it back;
      each length is used for its own range of characters. */
  lemma {:induction false} EncodeCharDecodes(c: char)
    ensures var r, n := EncodeChar(c), c as int;
            && (n < 128 ==> |r| == 1 && n == r[0] as int)
            && (128 <= n < 2048 ==> |r| == 2 && n == (r[0] as int - 192) * 64 + (r[1] as int - 128))
            && (2048 <= n < 65536 ==>
                  |r| == 3 && n == (r[0] as int - 224) * 4096 + (r[1] as int - 128) * 64 + (r[2] as int - 128))
            && (n >= 65536 ==>
                  |r| == 4 && n == (r[0] as int - 240) * 262144 + (r[1] as int - 128) * 4096
                                   + (r[2] as int - 128) * 64 + (r[3] as int - 128))
  {
    var n := c as int;
    SixBits(n);
    SixBits(n / 0x40);
    SixBits(n / 0x1000);
    assert n / 0x40 / 0x40 == n / 0x1000 && n / 0x1000 / 0x40 == n / 0x4_0000;
  }

  lemma {:induction false} SixBits(n: nat)
    ensures Continuation(n) as int == 128 + n % 64 && n == n / 64 * 64 + n % 64
  {
  }

  predicate IsContinuation(b: Byte) {
    0x80 <= b < 0xC0
  }

  function Continuation(n: nat): Byte {
    (0x80 + n % 0x40) as Byte
  }

  function Encode(s: string): seq<Byte> {
    if |s| == 0 then [] else Encode(s[..|s| - 1]) + EncodeChar(s[|s| - 1])
  }

  /** The byte position at which character `k` begins. */
  function Offset(s: string, k: nat): nat
    requires k <= |s|
  {
    |Encode(s[..k])|
  }

  ghost predicate IsBoundary(s: string, p: int) {
    exists k :: 0 <= k <= |s| && Offset(s, k) == p
  }

  lemma {:induction false} EncodeOneMore(s: string, c: char)
    ensures Encode(s + [c]) == Encode(s) + EncodeChar(c)
  {
    hide EncodeChar;
    assert (s + [c])[..|s|] == s;
  }

  lemma {:induction false} EncodeAppend(a: string, b: string)
    ensures Encode(a + b) == Encode(a) + Encode(b)
  {
    hide EncodeChar;
    if |b| == 0 {
      assert a + b == a;
    } else {
      var front, last := b[..|b| - 1], b[|b| - 1];
      EncodeAppend(a, front);
      EncodeOneMore(a + front, last);
      assert (a + front) + [last] == a + b;
    }
  }

  /** The bytes between two character boundaries encode the characters between them. */
  lemma {:induction false} EncodeSlice(s: string, i: nat, j: nat)
    requires i <= j <= |s|
    ensures Offset(s, i) <= Offset(s, j) <= |Encode(s)|
    ensures Encode(s)[Offset(s, i)..Offset(s, j)] == Encode(s[i..j])
    ensures i < j ==> Offset(s, i) < Offset(s, j)
    ensures Offset(s, 0) == 0 && Offset(s, |s|) == |Encode(s)|
  {
    assert s == s[..i] + s[i..j] + s[j..];
    assert s[..j] == s[..i] + s[i..j];
    EncodeAppend(s[..i], s[i..j]);
    EncodeAppend(s[..j], s[j..]);
    assert s[..j] + s[j..] == s;
    assert s[..|s|] == s;
    if i < j {
      assert |s[i..j]| > 0;
    }
  }

  /** A byte below 0x80 is a whole character. */
  lemma {:induction false} AsciiByteIsCharacter(s: string, p: nat) returns (k: nat)
    requires p < |Encode(s)| && Encode(s)[p] < 0x80
    ensures k < |s| && Offset(s, k) == p && Offset(s, k + 1) == p + 1
    ensures s[k] as int == Encode(s)[p] as int
  {
    var n := |s| - 1;
    var front := s[..n];
    if p < |Encode(front)| {
      k := AsciiByteIsCharacter(front, p);
      assert front[..k] == s[..k] && front[..k + 1] == s[..k + 1];
    } else {
      assert Encode(s)[p] == EncodeChar(s[n])[p - |Encode(front)|];
      k := n;
      assert s[..n + 1] == s;
    }
  }

  lemma {:induction false} AsciiByteBounds(s: string, p: nat)
    requires p < |Encode(s)| && Encode(s)[p] < 0x80
    ensures IsBoundary(s, p) && IsBoundary(s, p + 1)
  {
    var k := AsciiByteIsCharacter(s, p);
  }

  /** The test a string slice makes at each of its ends, by the byte there. */
  predicate IsCharBoundary(bytes: seq<Byte>, p: nat) {
    p == 0 || p == |bytes| || (p < |bytes| && !IsContinuation(bytes[p]))
  }

  /** The test on the bytes is right: characters begin exactly where it says. */
  lemma {:induction false} BoundaryTestIsExact(s: string, p: nat)
    ensures IsCharBoundary(Encode(s), p) <==> IsBoundary(s, p)
  {
    hide EncodeChar;
    if |s| == 0 {
      assert s[..0] == s;
      assert IsBoundary(s, 0) by {
        assert Offset(s, 0) == 0;
      }
    } else {
      var n := |s| - 1;
      BoundaryTestIsExact(s[..n], p);
      BoundaryOneMore(s, p);
      LastCharacterBytes(s, p);
    }
  }

  /** A further character adds one boundary, at the end. */
  lemma {:induction false} BoundaryOneMore(s: string, p: nat)
    requires |s| > 0
    ensures IsBoundary(s, p) <==> IsBoundary(s[..|s| - 1], p) || p == |Encode(s)|
  {
    hide Encode;
    var front := s[..|s| - 1];
    assert forall k :: 0 <= k <= |front| ==> front[..k] == s[..k];
    assert s[..|s|] == s;
    if IsBoundary(s, p) {
      var k: nat :| k <= |s| && Offset(s, k) == p;
      assert k <= |front| ==> Offset(front, k) == p;
    }
    if IsBoundary(front, p) {
      var k: nat :| k <= |front| && Offset(front, k) == p;
      assert Offset(s, k) == p;
    }
    if p == |Encode(s)| {
      assert Offset(s, |s|) == p;
    }
  }

  lemma {:induction false} LastCharacterBytes(s: string, p: nat)
    requires |s| > 0
    ensures IsCharBoundary(Encode(s), p) <==> IsCharBoundary(Encode(s[..|s| - 1]), p) || p == |Encode(s)|
  {
    var front, last := Encode(s[..|s| - 1]), EncodeChar(s[|s| - 1]);
    assert Encode(s) == front + last;
    if |front| < p < |Encode(s)| {
      assert Encode(s)[p] == last[p - |front|];
    } else if p == |front| {
      assert Encode(s)[p] == last[0];
    } else if p < |front| {
      assert Encode(s)[p] == front[p];
    }
  }

  predicate IsAscii(s: string) {
    forall k :: 0 <= k < |s| ==> s[k] as int < 0x80
  }

  /** An ASCII text is its own encoding, so every position is a boundary. */
  lemma {:induction false} EncodeAscii(s: string)
    requires IsAscii(s)
    ensures |Encode(s)| == |s|
    ensures forall k :: 0 <= k < |s| ==> Encode(s)[k] as int == s[k] as int
  {
    if |s| == 0 {
    } else {
      EncodeAscii(s[..|s| - 1]);
    }
  }
}

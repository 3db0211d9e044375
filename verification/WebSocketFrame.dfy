/** WebSocket frames as bytes: sections 5.2 and 5.3 of RFC 6455. */
module WebSocketFrame {
  import opened Bytes
  import opened JsonText

  /** A masking key: four bytes. */
  datatype MaskingKey = MaskingKey(k0: Byte, k1: Byte, k2: Byte, k3: Byte) {
    function At(i: nat): Byte
      requires i < 4
    {
      if i == 0 then k0 else if i == 1 then k1 else if i == 2 then k2 else k3
    }

    function Bytes(): (b: seq<Byte>)
      ensures |b| == 4 && KeyOf(b) == this
    {
      [k0, k1, k2, k3]
    }
  }

  function KeyOf(b: seq<Byte>): MaskingKey
    requires |b| == 4
  {
    MaskingKey(b[0], b[1], b[2], b[3])
  }

  /** Exclusive or, bit by bit. */
  function XorBits(a: nat, b: nat, k: nat): (x: nat)
    ensures x < Pow2(k)
  {
    if k == 0 then 0 else (a + b) % 2 + 2 * XorBits(a / 2, b / 2, k - 1)
  }

  function Xor(a: Byte, b: Byte): Byte {
    assert Pow2(8) == 256;
    XorBits(a, b, 8)
  }

  lemma Parity(a: nat, b: nat)
    ensures ((a + b) % 2 + b) % 2 == a % 2
  {
    var p, q := a % 2, b % 2;
    assert a == 2 * (a / 2) + p && b == 2 * (b / 2) + q;
    assert (a + b) % 2 == (p + q) % 2;
    assert ((a + b) % 2 + b) % 2 == ((p + q) % 2 + q) % 2;
  }

  lemma Halves(d: nat, y: nat)
    requires d < 2
    ensures (d + 2 * y) % 2 == d && (d + 2 * y) / 2 == y
  {
  }

  lemma {:induction false} XorBitsTwice(a: nat, b: nat, k: nat)
    requires a < Pow2(k)
    ensures XorBits(XorBits(a, b, k), b, k) == a
  {
    if k > 0 {
      var d, y := (a + b) % 2, XorBits(a / 2, b / 2, k - 1);
      XorBitsTwice(a / 2, b / 2, k - 1);
      Halves(d, y);
      XorSplit(d, y, b, k);
      Parity(a, b);
      Parity(d, b);
      assert (d + b) % 2 == a % 2;
    }
  }

  lemma XorSplit(d: nat, y: nat, b: nat, k: nat)
    requires d < 2 && k > 0
    ensures XorBits(d + 2 * y, b, k) == (d + b) % 2 + 2 * XorBits(y, b / 2, k - 1)
  {
    Halves(d, y);
    var x := d + 2 * y;
    assert x + b == d + b + 2 * y;
    assert (x + b) % 2 == (d + b) % 2 by { Shift(d + b, y); }
  }

  lemma Shift(m: nat, y: nat)
    ensures (m + 2 * y) % 2 == m % 2
  {
    assert m == 2 * (m / 2) + m % 2;
    Halves(m % 2, m / 2 + y);
  }

  lemma XorTwice(a: Byte, b: Byte)
    ensures Xor(Xor(a, b), b) == a
  {
    assert Pow2(8) == 256;
    XorBitsTwice(a, b, 8);
  }

  /** Bit k: halved k times, odd or even. */
  function Bit(x: nat, k: nat): nat { if k == 0 then x % 2 else Bit(x / 2, k - 1) }

  lemma BitIs(x: nat, k: nat)
    requires k < 8
    ensures Bit(x, k) == x / [1, 2, 4, 8, 16, 32, 64, 128][k] % 2
  {
    assert x / 2 / 2 == x / 4 && x / 4 / 2 == x / 8 && x / 8 / 2 == x / 16;
    assert x / 16 / 2 == x / 32 && x / 32 / 2 == x / 64 && x / 64 / 2 == x / 128;
    Halved(x, k);
  }

  lemma {:induction false} Halved(x: nat, k: nat)
    ensures k > 0 ==> Bit(x, k) == Bit(x / 2, k - 1)
    ensures k > 1 ==> Bit(x, k) == Bit(x / 2 / 2, k - 2)
    ensures k > 2 ==> Bit(x, k) == Bit(x / 2 / 2 / 2, k - 3)
    ensures k > 3 ==> Bit(x, k) == Bit(x / 2 / 2 / 2 / 2, k - 4)
  {
    if k > 1 { assert Bit(x / 2, k - 1) == Bit(x / 2 / 2, k - 2); }
    if k > 2 { assert Bit(x / 2 / 2, k - 2) == Bit(x / 2 / 2 / 2, k - 3); }
    if k > 3 { assert Bit(x / 2 / 2 / 2, k - 3) == Bit(x / 2 / 2 / 2 / 2, k - 4); }
  }

  /** Each bit is the sum of the two bits modulo 2. */
  lemma XorBit(a: Byte, b: Byte, k: nat)
    requires k < 8
    ensures Bit(Xor(a, b), k) == (Bit(a, k) + Bit(b, k)) % 2
  {
    XorBitsBit(a, b, 8, k);
  }

  lemma {:induction false} XorBitsBit(a: nat, b: nat, n: nat, k: nat)
    requires k < n
    ensures Bit(XorBits(a, b, n), k) == (Bit(a, k) + Bit(b, k)) % 2
  {
    var d, y := (a + b) % 2, XorBits(a / 2, b / 2, n - 1);
    Halves(d, y);
    if k > 0 { XorBitsBit(a / 2, b / 2, n - 1, k - 1); }
  }

  lemma Part<T>(s: seq<T>, k: nat, i: nat, j: nat)
    requires k <= |s| && i <= j <= |s| - k
    ensures s[k..][i..j] == s[k + i..k + j]
  {
  }

  // ---- masking

  function Masked(payload: seq<Byte>, key: MaskingKey): (m: seq<Byte>)
    ensures |m| == |payload|
  {
    seq(|payload|, i requires 0 <= i < |payload| => Xor(payload[i], key.At(i % 4)))
  }

  /** Section 5.3 of RFC 6455: byte i is the exclusive or with byte i modulo 4 of the key. */
  ghost predicate MaskedBits(m: seq<Byte>, payload: seq<Byte>, key: seq<Byte>)
    requires |key| == 4
  {
    && |m| == |payload|
    && forall i, k :: 0 <= i < |m| && 0 <= k < 8 ==> Bit(m[i], k) == (Bit(payload[i], k) + Bit(key[i % 4], k)) % 2
  }

  lemma MaskBits(payload: seq<Byte>, key: MaskingKey)
    ensures MaskedBits(Masked(payload, key), payload, key.Bytes())
  {
    hide Bit, Xor;
    var m := Masked(payload, key);
    forall i, k | 0 <= i < |m| && 0 <= k < 8
      ensures Bit(m[i], k) == (Bit(payload[i], k) + Bit(key.Bytes()[i % 4], k)) % 2
    {
      XorBit(payload[i], key.At(i % 4), k);
    }
  }

  lemma MaskTwice(payload: seq<Byte>, key: MaskingKey)
    ensures Masked(Masked(payload, key), key) == payload
  {
    forall i | 0 <= i < |payload| ensures Masked(Masked(payload, key), key)[i] == payload[i] {
      XorTwice(payload[i], key.At(i % 4));
    }
  }

  // ---- writing a frame

  /** How the payload length is written: in seven bits, in sixteen or in sixty-four. */
  datatype Width = Narrow | Wide | Huge

  /** A frame; first holds FIN, the reserved bits and the opcode. */
  datatype Frame = Frame(first: Byte, width: Width, key: Option<MaskingKey>, payload: seq<Byte>)

  predicate ValidFrame(f: Frame) {
    && (f.width.Narrow? ==> |f.payload| < 126)
    && (f.width.Wide? ==> |f.payload| < 65536)
  }

  /** The shortest form, which both writers choose. */
  function WidthOf(n: nat): Width {
    if n < 126 then Narrow else if n < 65536 then Wide else Huge
  }

  function BigEndian(n: nat, bytes: nat): (r: seq<Byte>)
    ensures |r| == bytes
  {
    if bytes == 0 then [] else BigEndian(n / 256, bytes - 1) + [n % 256]
  }

  function LengthType(f: Frame): (t: Byte)
    requires ValidFrame(f)
    ensures t < 128
  {
    match f.width
    case Narrow => |f.payload|
    case Wide => 126
    case Huge => 127
  }

  function LengthBytes(f: Frame): seq<Byte> {
    match f.width
    case Narrow => []
    case Wide => BigEndian(|f.payload|, 2)
    case Huge => BigEndian(|f.payload|, 8)
  }

  function Header(f: Frame): seq<Byte>
    requires ValidFrame(f)
  {
    [f.first, if f.key.Some? then 128 + LengthType(f) else LengthType(f)]
    + LengthBytes(f) + (if f.key.Some? then f.key.value.Bytes() else [])
  }

  function Body(f: Frame): seq<Byte>
    requires ValidFrame(f)
  {
    if f.key.Some? then Masked(f.payload, f.key.value) else f.payload
  }

  /** The number that the bytes write, highest first. */
  function Number(b: seq<Byte>): nat {
    if b == [] then 0 else 256 * Number(b[..|b| - 1]) + b[|b| - 1]
  }

  /** The numbers that so many bytes can write. */
  function Beyond(bytes: nat): nat { if bytes == 0 then 1 else 256 * Beyond(bytes - 1) }

  lemma {:induction false} BigEndianIs(n: nat, bytes: nat)
    requires n < Beyond(bytes)
    ensures Number(BigEndian(n, bytes)) == n
  {
    if bytes > 0 {
      BigEndianIs(n / 256, bytes - 1);
      var b := BigEndian(n, bytes);
      assert b[..|b| - 1] == BigEndian(n / 256, bytes - 1);
    }
  }

  function Encode(f: Frame): seq<Byte>
    requires ValidFrame(f)
  {
    Header(f) + Body(f)
  }

  // ---- reading a frame

  function Length7(b: seq<Byte>): nat
    requires |b| >= 2
  {
    b[1] % 128
  }

  predicate IsMasked(b: seq<Byte>)
    requires |b| >= 2
  {
    b[1] >= 128
  }

  function Length16(high: nat, low: nat): nat {
    256 * high + low
  }

  function PayloadLength(b: seq<Byte>): nat
    requires |b| >= 4
  {
    if Length7(b) == 126 then Length16(b[2], b[3]) else Length7(b)
  }

  function HeaderSize(b: seq<Byte>): nat
    requires |b| >= 2
  {
    2 + (if Length7(b) == 126 then 2 else 0) + (if IsMasked(b) then 4 else 0)
  }

  function FrameSize(b: seq<Byte>): nat
    requires |b| >= 4
  {
    HeaderSize(b) + PayloadLength(b)
  }

  /** Six or seven bytes of a masked frame with a 16-bit length end before its key.  The receiver
      takes them for a whole frame if the payload and the first four bytes would fit in them. */
  predicate Premature(b: seq<Byte>)
    requires |b| >= 4
  {
    |b| < HeaderSize(b) && 4 + PayloadLength(b) <= |b|
  }

  /** The frames that the receiver reads however they are cut: no 64-bit length, and no masked
      frame that spends sixteen bits on a length below four. */
  predicate Readable(b: seq<Byte>)
    requires |b| >= 4
  {
    Length7(b) != 127 && (Length7(b) == 126 && IsMasked(b) ==> PayloadLength(b) >= 4)
  }

  function KeyAt(b: seq<Byte>): MaskingKey
    requires |b| >= 4 && HeaderSize(b) <= |b| && IsMasked(b)
  {
    KeyOf(b[HeaderSize(b) - 4..HeaderSize(b)])
  }

  function FrameAt(b: seq<Byte>): Frame
    requires |b| >= 4 && FrameSize(b) <= |b|
  {
    var width := if Length7(b) == 126 then Wide else Narrow;
    var body := b[HeaderSize(b)..FrameSize(b)];
    if IsMasked(b) then Frame(b[0], width, Some(KeyAt(b)), Masked(body, KeyAt(b)))
    else Frame(b[0], width, None, body)
  }

  /** A frame the receiver can read. */
  predicate Supported(f: Frame) {
    ValidFrame(f) && !f.width.Huge? && (f.width.Wide? && f.key.Some? ==> |f.payload| >= 4)
  }

  lemma TwoBytes(n: nat)
    requires n < 65536
    ensures BigEndian(n, 2) == [n / 256, n % 256] && Length16(n / 256, n % 256) == n
  {
    assert BigEndian(n / 256, 1) == [n / 256 % 256];
  }

  lemma HeaderShape(f: Frame)
    requires ValidFrame(f) && !f.width.Huge?
    ensures var h := Header(f);
            && |h| == 2 + (if f.width.Wide? then 2 else 0) + (if f.key.Some? then 4 else 0)
            && h[0] == f.first && h[1] == (if f.key.Some? then 128 else 0) + LengthType(f)
            && (f.width.Wide? ==> |h| >= 4 && Length16(h[2], h[3]) == |f.payload|)
            && (f.key.Some? ==> h[|h| - 4..] == f.key.value.Bytes())
  {
    if f.width.Wide? { TwoBytes(|f.payload|); }
  }

  /** Do the bytes begin like this frame? */
  predicate Begins(b: seq<Byte>, f: Frame)
    requires ValidFrame(f)
  {
    if |b| <= |Encode(f)| then b == Encode(f)[..|b|] else b[..|Encode(f)|] == Encode(f)
  }

  /** From six bytes on, the receiver sees the header of a frame as it was written. */
  lemma HeaderSeen(f: Frame, b: seq<Byte>)
    requires ValidFrame(f) && !f.width.Huge? && |b| >= 6 && Begins(b, f)
    ensures b[0] == f.first && IsMasked(b) == f.key.Some? && Length7(b) == LengthType(f)
    ensures HeaderSize(b) == |Header(f)| && PayloadLength(b) == |f.payload| && (Readable(b) <==> Supported(f))
  {
    HeaderShape(f);
    HeaderBytes(f, b);
    hide Header, Body, Begins, Encode, BigEndian, LengthBytes, Masked, Length16, Length7, IsMasked;
    assert Length7(b) == LengthType(f) && IsMasked(b) == f.key.Some? by {
      hide *;
      SecondByte(f, b);
    }
    if f.width.Wide? { assert b[2] == Header(f)[2] && b[3] == Header(f)[3]; }
  }

  lemma SecondByte(f: Frame, b: seq<Byte>)
    requires ValidFrame(f) && |b| >= 2 && b[1] == (if f.key.Some? then 128 else 0) + LengthType(f)
    ensures Length7(b) == LengthType(f) && IsMasked(b) == f.key.Some?
  {
  }

  lemma ReadableIsWhole(b: seq<Byte>)
    requires |b| >= 6 && Readable(b)
    ensures !Premature(b) && Length7(b) != 127
  {
  }

  lemma SevenBytes(f: Frame)
    requires ValidFrame(f) && !f.width.Huge? && !Supported(f)
    ensures |Encode(f)| >= 8 && Premature(Encode(f)[..7])
  {
    hide Header, Body, BigEndian, LengthBytes;
    HeaderShape(f);
    assert |Encode(f)| >= |Header(f)| == 8;
    hide Encode;
    HeaderSeen(f, Encode(f)[..7]);
  }

  /** The supported frames are exactly those that are never taken before they are all there. */
  lemma NeverPremature(f: Frame)
    requires ValidFrame(f) && !f.width.Huge?
    ensures Supported(f) <==> forall k :: 6 <= k <= |Encode(f)| ==> !Premature(Encode(f)[..k])
  {
    hide Encode, Premature, Readable, PayloadLength, HeaderSize;
    if Supported(f) {
      forall k | 6 <= k <= |Encode(f)| ensures !Premature(Encode(f)[..k]) {
        HeaderSeen(f, Encode(f)[..k]);
        ReadableIsWhole(Encode(f)[..k]);
      }
    } else {
      SevenBytes(f);
    }
  }

  lemma HeaderBytes(f: Frame, b: seq<Byte>)
    requires ValidFrame(f) && |b| >= 6 && Begins(b, f)
    ensures forall i :: 0 <= i < 6 && i < |Header(f)| ==> b[i] == Header(f)[i]
  {
    hide Header, Body;
    forall i | 0 <= i < 6 && i < |Header(f)| ensures b[i] == Header(f)[i] {
      assert Encode(f)[i] == Header(f)[i];
      if |b| > |Encode(f)| { assert b[..|Encode(f)|][i] == b[i]; }
    }
  }

  /** Reading what was written gives the frame back, whatever follows it; anything shorter, from
      six bytes on, is seen to be incomplete. */
  lemma ReadWritten(f: Frame, b: seq<Byte>)
    requires Supported(f) && |b| >= 6 && Begins(b, f)
    ensures FrameSize(b) == |Encode(f)|
    ensures |b| >= |Encode(f)| ==> FrameAt(b) == f
  {
    HeaderSeen(f, b);
    HeaderShape(f);
    if |b| >= |Encode(f)| {
      var h := |Header(f)|;
      assert b[..|Encode(f)|] == Encode(f);
      assert b[h..|Encode(f)|] == Encode(f)[h..] == Body(f);
      if f.key.Some? {
        assert b[h - 4..h] == Encode(f)[..h][h - 4..] == f.key.value.Bytes();
        MaskTwice(f.payload, f.key.value);
      }
    }
  }

  lemma TwoBytesBack(high: Byte, low: Byte)
    ensures BigEndian(Length16(high, low), 2) == [high, low] && Length16(high, low) < 65536
  {
    TwoBytes(Length16(high, low));
  }

  lemma HeaderBack(b: seq<Byte>)
    requires |b| >= 6 && Readable(b) && FrameSize(b) <= |b|
    ensures Supported(FrameAt(b)) && Header(FrameAt(b)) == b[..HeaderSize(b)]
  {
    hide XorBits, Masked, BigEndian;
    var f := FrameAt(b);
    assert |f.payload| == PayloadLength(b);
    assert b[1] == (if f.key.Some? then 128 else 0) + Length7(b);
    if Length7(b) == 126 { TwoBytesBack(b[2], b[3]); }
    var n := if Length7(b) == 126 then 4 else 2;
    assert LengthBytes(f) == b[2..n];
    if IsMasked(b) { assert f.key.value.Bytes() == b[n..n + 4]; }
  }

  /** And writing what was read gives the bytes back. */
  lemma WriteRead(b: seq<Byte>)
    requires |b| >= 6 && Readable(b) && FrameSize(b) <= |b|
    ensures Supported(FrameAt(b)) && Encode(FrameAt(b)) == b[..FrameSize(b)]
  {
    HeaderBack(b);
    var body := b[HeaderSize(b)..FrameSize(b)];
    hide Header;
    if IsMasked(b) { MaskTwice(body, KeyAt(b)); }
    assert Body(FrameAt(b)) == body;
  }
}

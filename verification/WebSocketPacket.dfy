/** The byte buffer and the packet that reads and writes frames. */
module WebSocketPacket {
  import opened Bytes
  import opened JsonText
  import opened WebSocketFrame

  /** Bytes with a read position. */
  class ByteBuffer {
    var data: seq<Byte>
    var oft: nat

    /** What is still to be read. */
    ghost function Ahead(): seq<Byte>
      reads this
      requires oft <= |data|
    {
      data[oft..]
    }

    constructor ()
      ensures data == [] && oft == 0
    {
      data, oft := [], 0;
    }

    predicate Require(size: nat)
      reads this
      requires oft <= |data|
    {
      size <= |data| - oft
    }

    /** data.at(oft) must not throw. */
    method Curat() returns (at: nat)
      requires |data| == 0 || oft < |data|
      ensures at == if |data| == 0 then 0 else oft
    {
      at := if |data| == 0 then 0 else oft;
    }

    method SkipX(size: nat) returns (ok: bool)
      requires oft <= |data|
      modifies this`oft
      ensures ok <==> size <= |data| - old(oft)
      ensures oft == if ok then old(oft) + size else old(oft)
    {
      ok := Require(size);
      if ok { oft := oft + size; }
    }

    method ReadBytesX(size: nat) returns (ok: bool, bytes: seq<Byte>)
      requires oft <= |data| && size > 0
      modifies this`oft
      ensures ok <==> size <= |data| - old(oft)
      ensures ok ==> oft == old(oft) + size && bytes == data[old(oft)..oft]
      ensures !ok ==> oft == old(oft) && bytes == []
    {
      ok, bytes := Require(size), [];
      if ok {
        bytes := data[oft..oft + size];
        oft := oft + size;
      }
    }

    method ResetOft()
      modifies this`oft
      ensures oft == 0
    {
      oft := 0;
    }

    /** Drops bytes from the front; the read position is not moved. */
    method Erase(size: nat)
      modifies this`data
      ensures data == if size <= |old(data)| then old(data)[size..] else []
    {
      if 0 < size < |data| {
        data := data[size..];
      } else if size >= |data| {
        data := [];
      }
    }

    method Append(bytes: seq<Byte>)
      modifies this`data
      ensures data == old(data) + bytes
    {
      if |bytes| > 0 { data := data + bytes; }
    }

    method Clear()
      modifies this
      ensures data == [] && oft == 0
    {
      data, oft := [], 0;
    }
  }

  class WebSocketPacket {
    var fin_: Byte
    var opcode_: Byte
    var mask_: Byte
    var length_type_: Byte
    var masking_key_: MaskingKey
    var payload_length_: nat
    const payload_: ByteBuffer

    ghost predicate Valid()
      reads this, payload_
    {
      payload_.oft == 0 && |payload_.data| == payload_length_
    }

    constructor ()
      ensures Valid() && fresh(payload_) && payload_.data == []
    {
      fin_, opcode_, mask_, length_type_, payload_length_ := 0, 0, 0, 0, 0;
      masking_key_ := MaskingKey(0, 0, 0, 0);
      payload_ := new ByteBuffer();
    }

    /** Reads a frame's header.  A read that asks for more than there is leaves its target alone,
        which the caller can tell from the size it gets back.  A 64-bit length is read but not kept. */
    method FetchFrameInfo(input: ByteBuffer) returns (header: nat)
      requires input.oft <= |input.data| && |input.Ahead()| >= 6
      modifies this, input`oft
      ensures header == input.oft <= |input.data|
      ensures var b := old(input.Ahead());
              && fin_ == b[0] / 128 && opcode_ == b[0] % 128 && mask_ == b[1] / 128
              && payload_length_ == (if Length7(b) == 127 then old(payload_length_) else PayloadLength(b))
              && (Length7(b) != 127 ==>
                    && input.oft == old(input.oft) + (if HeaderSize(b) <= |b| then HeaderSize(b) else 4)
                    && (HeaderSize(b) <= |b| && IsMasked(b) ==> masking_key_ == KeyAt(b)))
    {
      ghost var b := input.Ahead();
      var onebyte: Byte := 0;
      var ok, bytes := input.ReadBytesX(1);
      if ok { onebyte := bytes[0]; }
      assert bytes == b[0..1] by { Part(input.data, old(input.oft), 0, 1); }
      fin_ := onebyte / 128;
      opcode_ := onebyte % 128;
      ok, bytes := input.ReadBytesX(1);
      if ok { onebyte := bytes[0]; }
      assert bytes == b[1..2] by { Part(input.data, old(input.oft), 1, 2); }
      mask_ := onebyte / 128;
      FetchLength(input, onebyte, b);
      if mask_ == 1 {
        ok, bytes := input.ReadBytesX(4);
        if ok { masking_key_ := KeyOf(bytes); }
        if Length7(b) != 127 && ok { Part(input.data, old(input.oft), HeaderSize(b) - 4, HeaderSize(b)); }
      }
      return input.oft;
    }

    /** The part of fetch_frame_info that reads the payload length. */
    method FetchLength(input: ByteBuffer, onebyte: Byte, ghost b: seq<Byte>)
      requires |b| >= 6 && onebyte == b[1] && 2 <= input.oft <= |input.data| && b == input.data[input.oft - 2..]
      modifies this`length_type_, this`payload_length_, input`oft
      ensures old(input.oft) <= input.oft <= |input.data|
      ensures payload_length_ == if Length7(b) == 127 then old(payload_length_) else PayloadLength(b)
      ensures Length7(b) != 127 ==> input.oft == old(input.oft) + if Length7(b) == 126 then 2 else 0
    {
      length_type_ := onebyte % 128;
      if length_type_ < 126 {
        payload_length_ := length_type_;
      } else if length_type_ == 126 {
        var pair: seq<Byte> := [0, 0];
        var ok, bytes := input.ReadBytesX(2);
        if ok { pair := bytes; }
        assert pair == b[2..4] by { Part(input.data, old(input.oft) - 2, 2, 4); }
        payload_length_ := Length16(pair[0], pair[1]);
      } else {
        var ok, bytes := input.ReadBytesX(8);
      }
    }

    /** Reads the payload of the frame whose header has been read, and takes the mask off. */
    method FetchPayload(input: ByteBuffer)
      requires input != payload_ && input.oft + payload_length_ <= |input.data|
      requires mask_ == 1 || input.oft < |input.data|
      modifies input`oft, payload_`data
      ensures input.oft == old(input.oft) + payload_length_
      ensures var body := input.data[old(input.oft)..input.oft];
              payload_.data == old(payload_.data) + if mask_ == 1 then Masked(body, masking_key_) else body
    {
      if mask_ == 1 {
        Unmask(input);
      } else {
        var at := input.Curat();
        payload_.Append(input.data[at..at + payload_length_]);
        var ok := input.SkipX(payload_length_);
      }
    }

    method Unmask(input: ByteBuffer)
      requires input != payload_ && input.oft + payload_length_ <= |input.data|
      modifies input`oft, payload_`data
      ensures input.oft == old(input.oft) + payload_length_
      ensures payload_.data == old(payload_.data) + Masked(input.data[old(input.oft)..input.oft], masking_key_)
    {
      hide Xor;
      ghost var start := input.oft;
      ghost var m := Masked(input.data[start..start + payload_length_], masking_key_);
      var i := 0;
      while i < payload_length_
        invariant i <= payload_length_ && input.oft == start + i
        invariant payload_.data == old(payload_.data) + m[..i]
      {
        var ok, one := input.ReadBytesX(1);
        assert one == input.data[start + i..start + i + 1];
        payload_.Append([Xor(one[0], masking_key_.At(i % 4))]);
        assert m[..i + 1] == m[..i] + [m[i]];
        i := i + 1;
      }
      assert m[..i] == m;
    }

    /** Reads one frame if all of it is there, and otherwise leaves the input as it was; only a
        premature frame is taken before it is there. */
    method RecvDataframe(input: ByteBuffer) returns (offset: nat)
      requires input != payload_
      requires input.oft <= |input.data| && |input.Ahead()| >= 6 && Length7(input.Ahead()) != 127
      modifies this, payload_`data, input`oft
      ensures var b := old(input.Ahead());
              if Premature(b) then
                offset == input.oft == old(input.oft) + 4 + PayloadLength(b) < old(input.oft) + FrameSize(b)
              else if FrameSize(b) <= |b| then
                && offset == input.oft == old(input.oft) + FrameSize(b) && offset > 0
                && payload_.data == old(payload_.data) + FrameAt(b).payload && payload_length_ == |FrameAt(b).payload|
                && fin_ == b[0] / 128 && opcode_ == b[0] % 128 && mask_ == b[1] / 128
                && (IsMasked(b) ==> masking_key_ == KeyAt(b))
              else offset == 0 && input.oft == old(input.oft) && payload_.data == old(payload_.data)
    {
      hide Masked, Xor;
      var oft := input.oft;
      ghost var b := input.Ahead();
      assert |b| == |input.data| - oft;
      var header := FetchFrameInfo(input);
      if payload_length_ + header > |input.data| {
        input.ResetOft();
        var ok := input.SkipX(oft);
        return 0;
      }
      assert !Premature(b) ==> FrameSize(b) <= |b|;
      hide PayloadLength, HeaderSize, IsMasked;
      ghost var body := input.data[input.oft..input.oft + payload_length_];
      if !Premature(b) {
        assert body == b[HeaderSize(b)..FrameSize(b)] by { Part(input.data, oft, HeaderSize(b), FrameSize(b)); }
      }
      FetchPayload(input);
      return input.oft;
    }

    /** The frame that pack_dataframe writes. */
    ghost function Packed(): Frame
      reads this, payload_
      requires fin_ <= 1
    {
      var key := if mask_ == 1 then Some(masking_key_) else None;
      Frame(FirstByte(fin_, opcode_), WidthOf(payload_length_), key, payload_.data)
    }

    method PackDataframe(output: ByteBuffer)
      requires Valid() && fin_ <= 1 && mask_ <= 1 && output != payload_
      modifies output`data, payload_`oft
      ensures ValidFrame(Packed()) && output.data == old(output.data) + Encode(Packed())
      ensures output.data[|old(output.data)|] == 128 * fin_ + opcode_ % 16
    {
      ghost var f := Packed();
      PackHeader(output);
      if mask_ == 1 {
        output.Append(masking_key_.Bytes());
        assert output.data == old(output.data) + Header(f);
        PackMasked(output);
      } else {
        assert output.data == old(output.data) + Header(f);
        output.Append(payload_.data);
      }
      assert old(output.data) + Encode(f) == old(output.data) + Header(f) + Body(f);
    }

    /** The part of pack_dataframe before the masking key. */
    method PackHeader(output: ByteBuffer)
      requires Valid() && fin_ <= 1 && mask_ <= 1 && output != payload_
      modifies output`data
      ensures ValidFrame(Packed())
      ensures output.data
              == old(output.data) + [Packed().first, 128 * mask_ + LengthType(Packed())] + LengthBytes(Packed())
    {
      output.Append([FirstByte(fin_, opcode_)]);
      if payload_length_ < 126 {
        output.Append([128 * mask_ + payload_length_]);
      } else if payload_length_ <= 65535 {
        output.Append([128 * mask_ + 126]);
        AppendLength(output, 2);
      } else {
        output.Append([128 * mask_ + 127]);
        AppendLength(output, 8);
      }
    }

    /** The part of pack_dataframe that masks the payload. */
    method PackMasked(output: ByteBuffer)
      requires Valid() && output != payload_
      modifies output`data, payload_`oft
      ensures output.data == old(output.data) + Masked(payload_.data, masking_key_)
    {
      hide Xor;
      ghost var m := Masked(payload_.data, masking_key_);
      var i := 0;
      while i < payload_length_
        invariant i <= payload_length_ && payload_.oft == i
        invariant output.data == old(output.data) + m[..i]
      {
        var ok, one := payload_.ReadBytesX(1);
        assert one == payload_.data[i..i + 1];
        output.Append([Xor(one[0], masking_key_.At(i % 4))]);
        assert m[..i + 1] == m[..i] + [m[i]];
        i := i + 1;
      }
      assert m[..i] == m;
    }

    /** The payload length, highest byte first. */
    method AppendLength(output: ByteBuffer, bytes: nat)
      modifies output`data
      ensures output.data == old(output.data) + BigEndian(payload_length_, bytes)
    {
      var k := bytes;
      while k > 0
        invariant 0 <= k <= bytes
        invariant output.data == old(output.data) + BigEndian(ShiftRight(payload_length_, k), bytes - k)
      {
        k := k - 1;
        output.Append([ShiftRight(payload_length_, k) % 256]);
      }
    }
  }

  function FirstByte(fin: Byte, opcode: Byte): Byte
    requires fin <= 1
  {
    128 * fin + opcode % 16
  }

  /** n shifted right by k bytes. */
  function ShiftRight(n: nat, k: nat): nat {
    if k == 0 then n else ShiftRight(n, k - 1) / 256
  }

  // ---- the sender

  method MaskPayload(payload: seq<Byte>, masking_key: MaskingKey) returns (masked_payload: seq<Byte>)
    ensures masked_payload == Masked(payload, masking_key)
    ensures MaskedBits(masked_payload, payload, masking_key.Bytes())
  {
    MaskBits(payload, masking_key);
    masked_payload := payload;
    for i := 0 to |payload|
      invariant masked_payload == Masked(payload, masking_key)[..i] + payload[i..]
    {
      masked_payload := masked_payload[i := Xor(masked_payload[i], masking_key.At(i % 4))];
    }
  }

  /** The masked text frame that a client sends. */
  function TextFrame(payload: seq<Byte>, masking_key: MaskingKey): Frame {
    Frame(0x81, WidthOf(|payload|), Some(masking_key), payload)
  }

  /** The bytes of a masked text frame, as section 5.2 of RFC 6455 lays them out. */
  ghost predicate IsTextFrame(b: seq<Byte>, payload: seq<Byte>, key: MaskingKey) {
    var n := |payload|;
    var h := if n <= 125 then 2 else if n <= 65535 then 4 else 10;
    && |b| == h + 4 + n
    && b[0] == 0x81
    && b[1] == 0x80 + (if n <= 125 then n else if n <= 65535 then 126 else 127)
    && (n > 125 ==> Number(b[2..h]) == n)
    && b[h..h + 4] == [key.k0, key.k1, key.k2, key.k3]
    && MaskedBits(b[h + 4..], payload, [key.k0, key.k1, key.k2, key.k3])
  }

  lemma TextFrameBytes(payload: seq<Byte>, key: MaskingKey)
    requires |payload| < 0x1_0000_0000_0000_0000
    ensures IsTextFrame(Encode(TextFrame(payload, key)), payload, key)
  {
    hide BigEndian, Number, Masked, MaskedBits;
    var f, n := TextFrame(payload, key), |payload|;
    var b, h := Encode(f), if n <= 125 then 2 else if n <= 65535 then 4 else 10;
    assert |Header(f)| == h + 4;
    assert b[h + 4..] == Masked(payload, key);
    assert b[h..h + 4] == key.Bytes();
    MaskBits(payload, key);
    if n > 125 {
      assert b[2..h] == BigEndian(n, h - 2);
      assert Beyond(2) == 0x1_0000 && Beyond(8) == 0x1_0000_0000_0000_0000;
      BigEndianIs(n, h - 2);
    }
  }

  method CreateWebsocketFrame(payload: seq<Byte>, masking_key: MaskingKey) returns (frame: seq<Byte>)
    ensures ValidFrame(TextFrame(payload, masking_key))
    ensures frame == Encode(TextFrame(payload, masking_key))
    ensures |payload| < 0x1_0000_0000_0000_0000 ==> IsTextFrame(frame, payload, masking_key)
  {
    hide IsTextFrame, MaskedBits;
    ghost var f := TextFrame(payload, masking_key);
    frame := [0x81];
    var payload_length := |payload|;
    if payload_length <= 125 {
      frame := frame + [128 + payload_length];
    } else if payload_length <= 65535 {
      TwoBytes(payload_length);
      frame := frame + [128 + 126];
      frame := frame + [payload_length / 256 % 256];
      frame := frame + [payload_length % 256];
    } else {
      frame := frame + [128 + 127];
      var i := 8;
      while i > 0
        invariant 0 <= i <= 8 && frame == [0x81, 255] + BigEndian(ShiftRight(payload_length, i), 8 - i)
      {
        i := i - 1;
        frame := frame + [ShiftRight(payload_length, i) % 256];
      }
    }
    assert frame == [0x81, 128 + LengthType(f)] + LengthBytes(f);
    for i := 0 to 4
      invariant frame == [0x81, 128 + LengthType(f)] + LengthBytes(f) + masking_key.Bytes()[..i]
    {
      frame := frame + [masking_key.At(i)];
    }
    assert masking_key.Bytes()[..4] == masking_key.Bytes();
    var masked_payload := MaskPayload(payload, masking_key);
    frame := frame + masked_payload;
    if |payload| < 0x1_0000_0000_0000_0000 { TextFrameBytes(payload, masking_key); }
  }

  lemma AtLeastSix(f: Frame)
    requires ValidFrame(f) && f.key.Some?
    ensures |Encode(f)| >= 6
  {
  }

  /** For every key and every payload up to 65535 bytes, receiving what create_websocket_frame
      built gives FIN, opcode and payload back and stops just after the frame, whatever follows. */
  method SendThenReceive(payload: seq<Byte>, masking_key: MaskingKey, more: seq<Byte>)
    returns (fin: Byte, opcode: Byte, received: seq<Byte>, offset: nat, size: nat)
    requires |payload| <= 65535
    ensures fin == 1 && opcode == 1 && received == payload
    ensures offset == size == |Encode(TextFrame(payload, masking_key))|
  {
    hide Encode, FrameAt, HeaderSize, PayloadLength, Masked, KeyAt;
    var frame := CreateWebsocketFrame(payload, masking_key);
    var input := new ByteBuffer();
    var packet := new WebSocketPacket();
    input.Append(frame);
    input.Append(more);
    ghost var f := TextFrame(payload, masking_key);
    assert input.Ahead() == frame + more;
    AtLeastSix(f);
    ReadWritten(f, frame + more);
    HeaderSeen(f, frame + more);
    offset := packet.RecvDataframe(input);
    return packet.fin_, packet.opcode_, packet.payload_.data, offset, |frame|;
  }

  /** Any proper prefix of six bytes or more is taken as incomplete and left in the buffer. */
  method SendThenReceivePart(payload: seq<Byte>, masking_key: MaskingKey, n: nat)
    returns (offset: nat, left: seq<Byte>, oft: nat)
    requires |payload| <= 65535
    requires 6 <= n && n < |Encode(TextFrame(payload, masking_key))|
    ensures offset == 0 && oft == 0 && left == Encode(TextFrame(payload, masking_key))[..n]
  {
    hide Encode, FrameAt, HeaderSize, PayloadLength, Masked, KeyAt;
    var frame := CreateWebsocketFrame(payload, masking_key);
    var input := new ByteBuffer();
    var packet := new WebSocketPacket();
    input.Append(frame[..n]);
    ghost var f := TextFrame(payload, masking_key);
    assert input.Ahead() == frame[..n];
    ReadWritten(f, frame[..n]);
    HeaderSeen(f, frame[..n]);
    offset := packet.RecvDataframe(input);
    return offset, input.data, input.oft;
  }
}

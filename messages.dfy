/**
 * The `Message` record of controller.py and the frame it builds:
 * `calculate_crc16` (lines 11-22) and `construct_message` (lines 34-39).
 */
module Messages {
  import opened Bytes
  import opened Crc16
  import opened Stuffing

  /** Start of transmission, `b'\r'`. */
  const SOT: byte := 0x0D
  /** End of transmission, `b'\n'`. */
  const EOT: byte := 0x0A

  /** Fields are assigned once by `__init__` (lines 5-9) and never changed. */
  datatype Message = Message(destination: byte, source: byte, command: byte, data: seq<byte>)

  /** The bytes the checksum covers, in order: destination, source, command, data (lines 13-15). */
  function Fields(m: Message): seq<byte>
  {
    [m.destination, m.source, m.command] + m.data
  }

  /** `calculate_crc16`: the loop of lines 12-22, returning the state as two bytes, MSB first. */
  method CalculateCrc16(m: Message) returns (crcBytes: seq<byte>)
    ensures crcBytes == ToBytes(Crc(Fields(m)))
  {
    var bytes := [m.destination] + [m.source] + [m.command] + m.data;
    assert bytes == Fields(m);
    var crc: bv16 := 0;
    var i := 0;
    while i < |bytes|
      invariant 0 <= i <= |bytes|
      invariant crc == Crc(bytes[..i])
    {
      CrcSnoc(bytes[..i], bytes[i]);
      assert bytes[..i + 1] == bytes[..i] + [bytes[i]];
      crc := UpdateCrc(crc, bytes[i]);
      i := i + 1;
    }
    assert bytes[..i] == bytes;
    crcBytes := ToBytes(crc);
  }

  /**
   * `construct_message` as written: only the source byte is escaped; destination,
   * command, data and the two checksum bytes are sent raw. The checksum covers the
   * unescaped fields.
   */
  function ConstructMessage(m: Message): seq<byte>
  {
    var header := [m.destination] + Escape([m.source]);
    var body := header + [m.command] + m.data;
    var message := body + ToBytes(Crc(Fields(m)));
    [SOT] + message + [EOT]
  }

  /**
   * `construct_message` step by step (lines 35-39): the source goes through
   * `escape_special_characters`, the checksum comes from `calculate_crc16`.
   */
  method BuildFrame(m: Message) returns (frame: seq<byte>)
    ensures frame == ConstructMessage(m)
  {
    var escaped := EscapeSpecialCharacters([m.source]);
    var header := [m.destination] + escaped;
    var body := header + [m.command] + m.data;
    var crc := CalculateCrc16(m);
    var message := body + crc;
    frame := [SOT] + message + [EOT];
  }

  /** How many bytes escaping the source adds. */
  function SourceExtra(m: Message): nat
  {
    if IsReserved(m.source) then 1 else 0
  }

  /** The middle part of a three-part concatenation is where its prefix ends. */
  lemma SliceMiddle(p: seq<byte>, x: seq<byte>, q: seq<byte>)
    ensures (p + x + q)[|p|..|p| + |x|] == x
  {
    assert (p + x + q)[|p|..|p| + |x|] == (p + x)[|p|..];
  }

  /** Where each part of a frame `SOT, d, e, c, data, crc, EOT` sits. */
  lemma FrameParts(d: byte, e: seq<byte>, c: byte, data: seq<byte>, crc: seq<byte>)
    requires |crc| == 2
    ensures var r := [SOT, d] + e + [c] + data + crc + [EOT];
      |r| == 6 + |e| + |data| &&
      r[0] == SOT && r[1] == d &&
      r[2..2 + |e|] == e &&
      r[2 + |e|] == c &&
      r[3 + |e|..3 + |e| + |data|] == data &&
      r[|r| - 3..|r| - 1] == crc &&
      r[|r| - 1] == EOT
  {
    var head := [SOT, d] + e + [c];
    var r := [SOT, d] + e + [c] + data + crc + [EOT];
    assert r == head + data + (crc + [EOT]);
    SliceMiddle(head, data, crc + [EOT]);
    assert r == [SOT, d] + e + ([c] + data + (crc + [EOT]));
    SliceMiddle([SOT, d], e, [c] + data + (crc + [EOT]));
    assert r == (head + data) + crc + [EOT];
    SliceMiddle(head + data, crc, [EOT]);
  }

  /**
   * The layout of a constructed frame, position by position: SOT, destination,
   * escaped source, command, data, checksum MSB and LSB over the unescaped
   * fields, EOT; 7 bytes plus the data, plus one when the source is reserved.
   */
  lemma ConstructMessageLayout(m: Message)
    ensures var r, k := ConstructMessage(m), SourceExtra(m);
      |r| == 7 + |m.data| + k &&
      r[0] == SOT && r[1] == m.destination &&
      r[2..3 + k] == EscapeByte(m.source) &&
      r[3 + k] == m.command &&
      r[4 + k..4 + k + |m.data|] == m.data &&
      r[|r| - 3..|r| - 1] == ToBytes(Crc(Fields(m))) &&
      r[|r| - 1] == EOT
  {
    ConstructMessageShape(m);
    FrameParts(m.destination, EscapeByte(m.source), m.command, m.data, ToBytes(Crc(Fields(m))));
  }

  /** The frame as one concatenation, with the escaped source spelled out. */
  lemma ConstructMessageShape(m: Message)
    ensures ConstructMessage(m) ==
      [SOT, m.destination] + EscapeByte(m.source) + [m.command] + m.data + ToBytes(Crc(Fields(m))) + [EOT]
    ensures |EscapeByte(m.source)| == 1 + SourceExtra(m)
  {
    EscapeSingle(m.source);
    Regroup(m.destination, EscapeByte(m.source), m.command, m.data, ToBytes(Crc(Fields(m))));
  }

  /** Concatenation regrouped: the nesting of lines 35-39 flattened. */
  lemma Regroup(d: byte, e: seq<byte>, c: byte, data: seq<byte>, crc: seq<byte>)
    ensures [SOT] + (([d] + e) + [c] + data + crc) + [EOT] == [SOT, d] + e + [c] + data + crc + [EOT]
  {
  }

  /**
   * The two checksum bytes a frame carries make the recurrence over the unescaped
   * fields end at zero: the receiver's `crc == 0` test accepts them.
   */
  lemma FrameChecksumAccepted(m: Message)
    ensures var r := ConstructMessage(m);
      |r| >= 3 && Crc(Fields(m) + r[|r| - 3..|r| - 1]) == 0
  {
    ConstructMessageLayout(m);
    ResidueZero(Fields(m));
  }

  /** What a frame carries between its delimiters before escaping: the fields and their checksum. */
  function Payload(m: Message): seq<byte>
  {
    Fields(m) + ToBytes(Crc(Fields(m)))
  }

  /**
   * The frame with every field escaped: the whole payload from destination to
   * the checksum LSB goes through `Escape`, between SOT and EOT.
   */
  function EncodeFrame(m: Message): (r: seq<byte>)
    ensures |r| == 7 + |m.data| + CountReserved(Payload(m))
    ensures r[0] == SOT && r[|r| - 1] == EOT
  {
    EscapeLength(Payload(m));
    [SOT] + Escape(Payload(m)) + [EOT]
  }

  /** Between its delimiters an escaped frame holds no SOT, EOT, XON or XOFF. */
  lemma EncodeFrameDelimited(m: Message)
    ensures var r := EncodeFrame(m);
      forall i :: 0 < i < |r| - 1 ==> r[i] != SOT && r[i] != EOT && r[i] != 0x11 && r[i] != 0x13
  {
    EscapeStuffed(Payload(m));
    var r := EncodeFrame(m);
    forall i | 0 < i < |r| - 1
      ensures r[i] != SOT && r[i] != EOT && r[i] != 0x11 && r[i] != 0x13
    {
      assert r[i] == Escape(Payload(m))[i - 1];
      assert StuffedAt(Escape(Payload(m)), i - 1);
    }
  }
}

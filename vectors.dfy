/**
 * Concrete values: the demo message of the controller.py script (lines 45-50)
 * and the catalogue check value of CRC-16/XMODEM, plus a date reply as the
 * device would have to send it for the decode of lines 89-98 to report a date.
 */
module Vectors {
  import opened Bytes
  import opened Crc16
  import opened Stuffing
  import opened Messages
  import opened Response
  import opened Frames

  /** The demo message: destination 0x42, source 0x11, command 0x04, data 0F 06. */
  const Demo: Message := Message(0x42, 0x11, 0x04, [0x0F, 0x06])

  /** The checksum of the demo fields, state by state. */
  lemma DemoChecksum()
    ensures Crc(Fields(Demo)) == 0x94C0
  {
    var s1 := [] + [0x42];
    CrcSnoc([], 0x42);
    assert Crc(s1) == 0x6886;
    var s2 := s1 + [0x11];
    CrcSnoc(s1, 0x11);
    assert Crc(s2) == 0x69BE;
    var s3 := s2 + [0x04];
    CrcSnoc(s2, 0x04);
    assert Crc(s3) == 0x030B;
    var s4 := s3 + [0x0F];
    CrcSnoc(s3, 0x0F);
    assert Crc(s4) == 0xCA8C;
    var s5 := s4 + [0x06];
    CrcSnoc(s4, 0x06);
    assert s5 == Fields(Demo);
  }

  /**
   * A frame addressed to CR (reserved, sent raw) differs from the fully escaped
   * frame and is still received intact: its checksum bytes 42 51 hold no SOE.
   */
  lemma CarriageReturnDestinationIntact()
    ensures var m := Message(SOT, 0x00, 0x00, []);
      ConstructMessage(m) != EncodeFrame(m) &&
      Receive(ConstructMessage(m)) == Ok(Reception(Payload(m), true, ParseDate(Payload(m))))
  {
    var m := Message(SOT, 0x00, 0x00, []);
    var s1 := [] + [SOT];
    CrcSnoc([], SOT);
    assert Crc(s1) == 0xD1AD;
    var s2 := s1 + [0x00];
    CrcSnoc(s1, 0x00);
    assert Crc(s2) == 0x765C;
    var s3 := s2 + [0x00];
    CrcSnoc(s2, 0x00);
    assert s3 == Fields(m);
    assert Crc(Fields(m)) == 0x4251;
    assert ToBytes(0x4251) == [0x42, 0x51];
    assert RawBytes(m) == [SOT, 0x00, 0x42, 0x51];
    assert !NoneReserved(RawBytes(m)) by {
      assert IsReserved(RawBytes(m)[0]);
    }
    ConstructAgreesWithEncodeExactly(m);
    ConstructMessageIntactExactly(m);
  }

  /** The frame `construct_message` builds for the demo: the source 0x11 goes out as 5E 51. */
  lemma DemoFrame()
    ensures ConstructMessage(Demo) == [0x0D, 0x42, 0x5E, 0x51, 0x04, 0x0F, 0x06, 0x94, 0xC0, 0x0A]
  {
    DemoChecksum();
    EscapeSingle(0x11);
  }

  /**
   * The demo frame read back by the receive path: it passes the check, and the
   * decode reports an unknown source, since the payload starts with 0x42.
   */
  lemma DemoFrameReceived()
    ensures Receive(ConstructMessage(Demo)) ==
      Ok(Reception([0x42, 0x11, 0x04, 0x0F, 0x06, 0x94, 0xC0], true, UnknownSource))
  {
    DemoChecksum();
    assert RawBytes(Demo) == [0x42, 0x04, 0x0F, 0x06, 0x94, 0xC0];
    assert NoneReserved(RawBytes(Demo));
    ConstructMessageReceived(Demo);
    assert Payload(Demo) == [0x42, 0x11, 0x04, 0x0F, 0x06, 0x94, 0xC0];
  }

  /** The catalogue check value of CRC-16/XMODEM: "123456789" gives 0x31C3. */
  lemma CheckValue()
    ensures Crc([0x31, 0x32, 0x33, 0x34, 0x35, 0x36, 0x37, 0x38, 0x39]) == 0x31C3
  {
    var s1 := [] + [0x31];
    CrcSnoc([], 0x31);
    assert Crc(s1) == 0x2672;
    var s2 := s1 + [0x32];
    CrcSnoc(s1, 0x32);
    assert Crc(s2) == 0x20B5;
    var s3 := s2 + [0x33];
    CrcSnoc(s2, 0x33);
    assert Crc(s3) == 0x9752;
    var s4 := s3 + [0x34];
    CrcSnoc(s3, 0x34);
    assert Crc(s4) == 0xD789;
    var s5 := s4 + [0x35];
    CrcSnoc(s4, 0x35);
    assert Crc(s5) == 0x546C;
    var s6 := s5 + [0x36];
    CrcSnoc(s5, 0x36);
    assert Crc(s6) == 0x20E4;
    var s7 := s6 + [0x37];
    CrcSnoc(s6, 0x37);
    assert Crc(s7) == 0x86D6;
    var s8 := s7 + [0x38];
    CrcSnoc(s7, 0x38);
    assert Crc(s8) == 0x9015;
    var s9 := s8 + [0x39];
    CrcSnoc(s8, 0x39);
    assert s9 == [0x31, 0x32, 0x33, 0x34, 0x35, 0x36, 0x37, 0x38, 0x39];
  }

  /**
   * A date reply the decode accepts: the payload is the date prefix, the three
   * fields and their checksum, fully escaped between SOT and EOT. The leading
   * 0x5E of the prefix travels as the pair 5E 9E, since the unescape loop takes
   * a bare 0x5E for a marker.
   */
  lemma DateReplyReceived(day: byte, month: byte, year: byte)
    ensures var p := DatePrefix + [day, month, year];
      var q := p + ToBytes(Crc(p));
      Receive([SOT] + Escape(q) + [EOT]) == Ok(Reception(q, true, Date(day, month, year)))
  {
    var p := DatePrefix + [day, month, year];
    var q := p + ToBytes(Crc(p));
    UnescapeDelimited(q);
    ResidueZero(p);
    ReceiveDelimited([SOT] + Escape(q) + [EOT], q);
    assert q[..5] == DatePrefix;
  }
}

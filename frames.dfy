/**
 * Frames end to end: what the receive path of controller.py makes of a frame
 * built on the host side. `construct_message` (lines 34-39) escapes only the
 * source byte, while the receive loop (lines 60-69) unescapes every byte. A
 * frame survives the trip when every byte is escaped (`EncodeFrame`).
 * `construct_message`'s frame equals that frame exactly when no other byte is
 * reserved, and it survives exactly when no other byte is SOE: a raw SOE makes
 * the loop raise or lose a byte.
 */
module Frames {
  import opened Bytes
  import opened Crc16
  import opened Stuffing
  import opened Messages
  import opened Response

  // ---------------------------------------------------------------------------
  // Unescaping a delimited frame

  /** A lone byte other than SOE, with no escape pending, decodes to itself. */
  lemma UnescapeLast(b: byte, at: nat)
    requires b != SOE
    ensures UnescapeFrom([b], false, at) == Ok([b])
  {
    assert [b][1..] == [];
    assert [b] + [] == [b];
  }

  /** SOT, the escaped form of `x`, EOT: unescaping gives SOT, `x`, EOT. */
  lemma UnescapeDelimited(x: seq<byte>)
    ensures Unescape([SOT] + Escape(x) + [EOT]) == Ok([SOT] + x + [EOT])
  {
    assert [SOT] + Escape(x) + [EOT] == [SOT] + (Escape(x) + [EOT]);
    UnescapePlain(SOT, Escape(x) + [EOT], 0);
    UnescapeEscapeThen(x, [EOT], 1);
    UnescapeLast(EOT, 1 + |Escape(x)|);
    PrependPrepend([SOT], x, Ok([EOT]));
    assert [SOT] + x + [EOT] == ([SOT] + x) + [EOT];
  }

  /** The receive path over a string that unescapes to SOT, a checksummed payload, EOT. */
  lemma ReceiveDelimited(response: seq<byte>, p: seq<byte>)
    requires Unescape(response) == Ok([SOT] + p + [EOT])
    requires Crc(p) == 0
    ensures Receive(response) == Ok(Reception(p, true, ParseDate(p)))
  {
    StripFrame(SOT, p, EOT);
  }

  // ---------------------------------------------------------------------------
  // The corrected frame: everything escaped

  /**
   * Round trip: a frame whose payload is fully escaped reaches the receiver
   * unescaped, stripped back to the fields and checksum, and passes the check.
   */
  lemma EncodeFrameReceived(m: Message)
    ensures Receive(EncodeFrame(m)) == Ok(Reception(Payload(m), true, ParseDate(Payload(m))))
  {
    UnescapeDelimited(Payload(m));
    ResidueZero(Fields(m));
    ReceiveDelimited(EncodeFrame(m), Payload(m));
  }

  // ---------------------------------------------------------------------------
  // `construct_message` as written

  /** Destination, command, data and checksum: the bytes `construct_message` sends unescaped. */
  function RawBytes(m: Message): seq<byte>
  {
    [m.destination, m.command] + (m.data + ToBytes(Crc(Fields(m))))
  }

  /** No byte of `s` is reserved. */
  predicate NoneReserved(s: seq<byte>)
  {
    forall i :: 0 <= i < |s| ==> !IsReserved(s[i])
  }

  lemma NoneReservedSplit(d: byte, c: byte, tail: seq<byte>)
    ensures NoneReserved([d, c] + tail) <==> !IsReserved(d) && !IsReserved(c) && NoneReserved(tail)
  {
    var s := [d, c] + tail;
    if !IsReserved(d) && !IsReserved(c) && NoneReserved(tail) {
      forall i | 2 <= i < |s| ensures !IsReserved(s[i]) {
        assert s[i] == tail[i - 2];
      }
    }
    if NoneReserved(s) {
      assert s[0] == d && s[1] == c;
      assert !IsReserved(s[0]) && !IsReserved(s[1]);
      forall i | 0 <= i < |tail| ensures !IsReserved(tail[i]) {
        assert s[i + 2] == tail[i];
      }
    }
  }

  /** The reserved bytes of a payload are those of its source plus those sent raw. */
  lemma ReservedSplit(d: byte, s: byte, c: byte, data: seq<byte>, crc: seq<byte>)
    ensures CountReserved([d, s, c] + data + crc) == CountReserved([s]) + CountReserved([d, c] + (data + crc))
  {
    assert [d, s, c] + data + crc == [d, s, c] + (data + crc);
    CountReservedConcat([d, s, c], data + crc);
    CountReservedConcat([d, c], data + crc);
    assert [d, s, c][1..] == [s, c] && [s, c][1..] == [c] && [c][1..] == [];
    assert [d, c][1..] == [c] && [s][1..] == [];
  }

  lemma NoneReservedConcat(a: seq<byte>, b: seq<byte>)
    ensures NoneReserved(a + b) <==> NoneReserved(a) && NoneReserved(b)
  {
    if NoneReserved(a + b) {
      forall i | 0 <= i < |a| ensures !IsReserved(a[i]) {
        assert (a + b)[i] == a[i];
      }
      forall i | 0 <= i < |b| ensures !IsReserved(b[i]) {
        assert (a + b)[|a| + i] == b[i];
      }
    }
  }

  /** With destination, command, data and checksum plain, full escaping escapes the source alone. */
  lemma EscapeSourceOnly(d: byte, s: byte, c: byte, data: seq<byte>, crc: seq<byte>)
    requires !IsReserved(d) && !IsReserved(c) && NoneReserved(data) && NoneReserved(crc)
    ensures Escape([d, s, c] + data + crc) == [d] + Escape([s]) + [c] + data + crc
  {
    EscapeConcat([d, s, c] + data, crc);
    EscapeConcat([d, s, c], data);
    EscapeIdentity(data);
    EscapeIdentity(crc);
    EscapePlainAround(d, s, c);
    EscapeSingle(s);
  }

  lemma EscapePlainAround(d: byte, s: byte, c: byte)
    requires !IsReserved(d) && !IsReserved(c)
    ensures Escape([d, s, c]) == [d] + EscapeByte(s) + [c]
  {
    assert [d, s, c][1..] == [s, c] && [s, c][1..] == [c];
    EscapeSingle(c);
  }

  /**
   * `construct_message` sends the same bytes as the fully escaped frame exactly
   * when none of destination, command, data and checksum is reserved.
   */
  lemma ConstructAgreesWithEncodeExactly(m: Message)
    ensures ConstructMessage(m) == EncodeFrame(m) <==> NoneReserved(RawBytes(m))
  {
    var crc := ToBytes(Crc(Fields(m)));
    ConstructMessageLayout(m);
    ReservedSplit(m.destination, m.source, m.command, m.data, crc);
    CountReservedZero(RawBytes(m));
    assert CountReserved([m.source]) == SourceExtra(m) by {
      assert [m.source][1..] == [];
    }
    NoneReservedSplit(m.destination, m.command, m.data + crc);
    NoneReservedConcat(m.data, crc);
    if NoneReserved(RawBytes(m)) {
      EscapeSourceOnly(m.destination, m.source, m.command, m.data, crc);
    }
  }

  /**
   * When nothing but the source is reserved, the frame `construct_message`
   * builds is received intact and passes the check.
   */
  lemma ConstructMessageReceived(m: Message)
    requires NoneReserved(RawBytes(m))
    ensures Receive(ConstructMessage(m)) == Ok(Reception(Payload(m), true, ParseDate(Payload(m))))
  {
    ConstructAgreesWithEncodeExactly(m);
    EncodeFrameReceived(m);
  }

  /** Command, data, checksum and EOT, with no SOE among them, unescape to themselves. */
  lemma UnescapeRawTail(c: byte, data: seq<byte>, crc: seq<byte>, at: nat)
    requires c != SOE && SOE !in data + crc
    ensures UnescapeFrom([c] + (data + crc) + [EOT], false, at) == Ok([c] + (data + crc) + [EOT])
  {
    var tail := [c] + (data + crc) + [EOT];
    assert SOE !in tail;
    UnescapeCopyThen(tail, [], at);
    assert tail + [] == tail;
  }

  lemma UnescapeFrameSplit(d: byte, s: byte, c: byte, rest: seq<byte>)
    requires d != SOE && c != SOE && SOE !in rest
    ensures Unescape([SOT, d] + (Escape([s]) + ([c] + rest + [EOT]))) == Ok([SOT, d] + [s] + ([c] + rest + [EOT]))
  {
    var tail := [c] + rest + [EOT];
    UnescapeCopyThen([SOT, d], Escape([s]) + tail, 0);
    UnescapeEscapeThen([s], tail, 2);
    UnescapeRawTail(c, rest, [], 2 + |Escape([s])|);
    assert rest + [] == rest;
    PrependPrepend([SOT, d], [s], Ok(tail));
  }

  /** A frame `SOT, d, escaped s, c, data, crc, EOT` with no SOE sent raw unescapes to its parts. */
  lemma UnescapeFrameParts(d: byte, s: byte, c: byte, data: seq<byte>, crc: seq<byte>)
    requires SOE !in [d, c] + (data + crc)
    ensures Unescape([SOT, d] + EscapeByte(s) + [c] + data + crc + [EOT]) == Ok([SOT] + ([d, s, c] + data + crc) + [EOT])
  {
    var raw := [d, c] + (data + crc);
    assert raw[0] == d && raw[1] == c && raw[2..] == data + crc;
    EscapeSingle(s);
    FrameRegrouped(d, s, c, data, crc);
    UnescapeFrameSplit(d, s, c, data + crc);
  }

  lemma FrameRegrouped(d: byte, s: byte, c: byte, data: seq<byte>, crc: seq<byte>)
    ensures [SOT, d] + EscapeByte(s) + [c] + data + crc + [EOT] == [SOT, d] + (EscapeByte(s) + ([c] + (data + crc) + [EOT]))
    ensures [SOT, d] + [s] + ([c] + (data + crc) + [EOT]) == [SOT] + ([d, s, c] + data + crc) + [EOT]
  {
  }

  /** With no SOE among the raw bytes, the unescape loop gives back SOT, the payload and EOT. */
  lemma ConstructMessageUnescaped(m: Message)
    requires SOE !in RawBytes(m)
    ensures Unescape(ConstructMessage(m)) == Ok([SOT] + Payload(m) + [EOT])
  {
    ConstructMessageShape(m);
    UnescapeFrameParts(m.destination, m.source, m.command, m.data, ToBytes(Crc(Fields(m))));
  }

  /** The markers of a frame: those of the escaped source plus the SOE bytes sent raw. */
  lemma MarkersOfFrameParts(d: byte, e: seq<byte>, c: byte, rest: seq<byte>)
    ensures CountSoe([SOT, d] + (e + ([c] + rest + [EOT]))) == CountSoe(e) + CountSoe([d, c] + rest)
  {
    assert [SOT, d] + (e + ([c] + rest + [EOT])) == [SOT] + ([d] + (e + ([c] + (rest + [EOT]))));
    CountSoeCons(SOT, [d] + (e + ([c] + (rest + [EOT]))));
    CountSoeCons(d, e + ([c] + (rest + [EOT])));
    CountSoeConcat(e, [c] + (rest + [EOT]));
    CountSoeCons(c, rest + [EOT]);
    CountSoeConcat(rest, [EOT]);
    CountSoeCons(EOT, []);
    assert [d, c] + rest == [d] + ([c] + rest);
    CountSoeCons(d, [c] + rest);
    CountSoeCons(c, rest);
  }

  /** The markers of a constructed frame: one for a reserved source plus the raw SOE bytes. */
  lemma ConstructMessageMarkers(m: Message)
    ensures CountSoe(ConstructMessage(m)) == SourceExtra(m) + CountSoe(RawBytes(m))
  {
    var rest := m.data + ToBytes(Crc(Fields(m)));
    ConstructMessageShape(m);
    CountSoeEscapeByte(m.source);
    assert ConstructMessage(m) == [SOT, m.destination] + (EscapeByte(m.source) + ([m.command] + rest + [EOT]));
    MarkersOfFrameParts(m.destination, EscapeByte(m.source), m.command, rest);
  }

  /**
   * End to end, exactly: the frame `construct_message` builds is received with
   * its payload intact and passes the check when no raw byte (destination,
   * command, data, checksum) is SOE; with one, unescaping raises or loses a byte.
   * Raw CR, LF, XON and XOFF bytes do not disturb the unescape loop.
   */
  lemma ConstructMessageIntactExactly(m: Message)
    ensures Receive(ConstructMessage(m)) == Ok(Reception(Payload(m), true, ParseDate(Payload(m))))
      <==> SOE !in RawBytes(m)
  {
    if SOE !in RawBytes(m) {
      ConstructMessageUnescaped(m);
      ResidueZero(Fields(m));
      ReceiveDelimited(ConstructMessage(m), Payload(m));
    } else {
      ConstructMessageLayout(m);
      ConstructMessageMarkers(m);
      CountSoeZero(RawBytes(m));
      UnescapeLength(ConstructMessage(m), false, 0);
    }
  }

  /** A frame that starts SOT, SOE holds at least one more marker than its escaped source. */
  lemma MarkersAfterSoeDestination(e: seq<byte>, c: byte, data: seq<byte>, crc: seq<byte>)
    ensures CountSoe([SOT, SOE] + e + [c] + data + crc + [EOT]) >= 1 + CountSoe(e)
  {
    var rest := [c] + data + crc + [EOT];
    assert [SOT, SOE] + e + [c] + data + crc + [EOT] == [SOT, SOE] + (e + rest);
    CountSoeConcat([SOT, SOE], e + rest);
    CountSoeConcat(e, rest);
    assert [SOT, SOE][1..] == [SOE] && [SOE][1..] == [];
  }

  /**
   * With SOE as destination the receiver never gets the payload back: the
   * unescape loop takes the destination for a marker, so it either raises or
   * returns at least one byte too few.
   */
  lemma ConstructMessageSoeDestinationLost(m: Message)
    requires m.destination == SOE
    ensures Receive(ConstructMessage(m)).Ok? ==> |Receive(ConstructMessage(m)).value.stripped| < |Payload(m)|
  {
    var f := ConstructMessage(m);
    ConstructMessageShape(m);
    ConstructMessageLayout(m);
    MarkersAfterSoeDestination(EscapeByte(m.source), m.command, m.data, ToBytes(Crc(Fields(m))));
    CountSoeEscapeByte(m.source);
    UnescapeLength(f, false, 0);
  }

  /** A destination SOE followed by a plain source below 0x40 makes the unescape loop raise at index 2. */
  lemma ConstructMessageSoeDestinationRaises(m: Message)
    requires m.destination == SOE && m.source < 0x40 && !IsReserved(m.source)
    ensures Receive(ConstructMessage(m)) == Err(NegativeByte(2))
  {
    ConstructMessageShape(m);
    UnescapeMarkerThenLow(m.source, m.command, m.data, ToBytes(Crc(Fields(m))));
  }

  lemma UnescapeMarkerThenLow(b: byte, c: byte, data: seq<byte>, crc: seq<byte>)
    requires b != SOE && b < 0x40
    ensures Unescape([SOT, SOE] + [b] + [c] + data + crc + [EOT]) == Err(NegativeByte(2))
  {
    var rest := [c] + data + crc + [EOT];
    var s := [SOT, SOE] + [b] + rest;
    assert [SOT, SOE] + [b] + [c] + data + crc + [EOT] == s;
    assert s[0] == SOT && s[1..] == [SOE, b] + rest;
    assert s[1..][0] == SOE && s[1..][1..] == [b] + rest;
    assert UnescapeFrom([b] + rest, true, 2) == Err(NegativeByte(2));
    assert UnescapeFrom(s[1..], false, 1) == Err(NegativeByte(2));
  }

  /** The smallest frame that shows it: destination SOE, source and command 0, no data. */
  lemma ConstructMessageUnreadable()
    ensures Receive(ConstructMessage(Message(SOE, 0x00, 0x00, []))) == Err(NegativeByte(2))
  {
    ConstructMessageSoeDestinationRaises(Message(SOE, 0x00, 0x00, []));
  }
}

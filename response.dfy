/**
 * The receive path of the controller.py script (lines 57-106): the response
 * line is unescaped (lines 60-69), its delimiters are stripped (line 72), the
 * checksum residue is checked (lines 75-86) and a date reply is decoded
 * (lines 89-106). The serial read itself is not modelled: the response is an
 * input byte string.
 */
module Response {
  import opened Bytes
  import opened Crc16
  import opened Stuffing

  // ---------------------------------------------------------------------------
  // Strip (line 72)

  /**
   * `bytes(unescape_response)[1:-1]`: the first and last byte removed. Python
   * slicing clamps, so a string of fewer than two bytes strips to nothing.
   */
  function Strip(u: seq<byte>): (r: seq<byte>)
    ensures |r| == if |u| < 2 then 0 else |u| - 2
    ensures forall i :: 0 <= i < |r| ==> r[i] == u[i + 1]
  {
    if |u| < 2 then [] else u[1..|u| - 1]
  }

  /** Stripping undoes the framing by SOT and EOT (or any two delimiters). */
  lemma StripFrame(first: byte, x: seq<byte>, last: byte)
    ensures Strip([first] + x + [last]) == x
  {
    var u := [first] + x + [last];
    assert u[1..|u| - 1] == x;
  }

  // ---------------------------------------------------------------------------
  // Checksum check (lines 75-86)

  /**
   * The check loop of lines 75-82 and the test of line 83: the recurrence of
   * `calculate_crc16` run over the stripped response, accepted when it ends at 0.
   */
  method CheckCrc(stripped: seq<byte>) returns (passed: bool)
    ensures passed <==> Crc(stripped) == 0
  {
    var crc: bv16 := 0;
    var i := 0;
    while i < |stripped|
      invariant 0 <= i <= |stripped|
      invariant crc == Crc(stripped[..i])
    {
      CrcSnoc(stripped[..i], stripped[i]);
      assert stripped[..i + 1] == stripped[..i] + [stripped[i]];
      crc := UpdateCrc(crc, stripped[i]);
      i := i + 1;
    }
    assert stripped[..i] == stripped;
    passed := crc == 0;
  }

  // ---------------------------------------------------------------------------
  // Date decode (lines 89-106)

  /** Indices 0..4 of a date reply: source (as 0x5E 0x51), destination, command, node. */
  const DatePrefix: seq<byte> := [0x5E, 0x51, 0x42, 0x08, 0x0F]

  /**
   * What the script reports: the three date fields, one of the four "Unknown"
   * messages, or the `IndexError` it raises reading index `index` of a response
   * that is too short.
   */
  datatype DateReply =
    | Date(day: byte, month: byte, year: byte)
    | UnknownSource
    | UnknownDestination
    | UnknownCommand
    | UnknownNode
    | IndexOutOfRange(index: nat)

  /** The verdict when byte `j` of the prefix is the first one that differs. */
  function MismatchAt(j: nat): DateReply
    requires j < 5
  {
    if j <= 1 then UnknownSource
    else if j == 2 then UnknownDestination
    else if j == 3 then UnknownCommand
    else UnknownNode
  }

  /** The smaller of two lengths. */
  function Min(a: nat, b: nat): nat
  {
    if a <= b then a else b
  }

  /**
   * The nested tests of lines 89-106, in the order Python evaluates them: each
   * index is read only once the earlier ones matched, and `and` short-circuits.
   * The date fields are read at indices 5, 6 and 7.
   */
  function ParseDate(s: seq<byte>): (r: DateReply)
    ensures r.Date? <==> |s| >= 8 && s[..5] == DatePrefix
    ensures r.Date? ==> r.day == s[5] && r.month == s[6] && r.year == s[7]
    ensures r.IndexOutOfRange? <==> |s| < 8 && s[..Min(|s|, 5)] == DatePrefix[..Min(|s|, 5)]
    ensures r.IndexOutOfRange? ==> r.index == |s|
    ensures forall j :: 0 <= j < 5 && j < |s| && s[..j] == DatePrefix[..j] && s[j] != DatePrefix[j] ==>
      r == MismatchAt(j)
  {
    if |s| < 1 then IndexOutOfRange(0)
    else if s[0] != 0x5E then UnknownSource
    else if |s| < 2 then IndexOutOfRange(1)
    else if s[1] != 0x51 then UnknownSource
    else if |s| < 3 then IndexOutOfRange(2)
    else if s[2] != 0x42 then UnknownDestination
    else if |s| < 4 then IndexOutOfRange(3)
    else if s[3] != 0x08 then UnknownCommand
    else if |s| < 5 then IndexOutOfRange(4)
    else if s[4] != 0x0F then UnknownNode
    else if |s| < 8 then IndexOutOfRange(|s|)
    else Date(s[5], s[6], s[7])
  }

  // ---------------------------------------------------------------------------
  // The whole receive path

  /** What the script computes from one response line: the stripped frame, the CRC verdict, the reply. */
  datatype Reception = Reception(stripped: seq<byte>, crcPassed: bool, reply: DateReply)

  /**
   * The receive path as a function of the response line. Unescaping can raise;
   * otherwise the checksum verdict is printed and the decode runs whatever it was.
   */
  function Receive(response: seq<byte>): (r: Result<Reception, UnescapeError>)
    ensures r.Err? <==> Unescape(response).Err?
    ensures r.Err? ==> r.error == Unescape(response).error
    ensures r.Ok? ==> r.value.stripped == Strip(Unescape(response).value)
    ensures r.Ok? ==> |r.value.stripped| <= |response|
  {
    UnescapeLength(response, false, 0);
    match Unescape(response)
    case Err(e) => Err(e)
    case Ok(u) =>
      var stripped := Strip(u);
      Ok(Reception(stripped, Crc(stripped) == 0, ParseDate(stripped)))
  }

  /** Lines 57-106 after the read: unescape, strip, check, decode. */
  method ReceiveResponse(response: seq<byte>) returns (r: Result<Reception, UnescapeError>)
    ensures r == Receive(response)
  {
    var unescaped := UnescapeResponse(response);
    if unescaped.Err? {
      return Err(unescaped.error);
    }
    var stripped := Strip(unescaped.value);
    var passed := CheckCrc(stripped);
    r := Ok(Reception(stripped, passed, ParseDate(stripped)));
  }

  /**
   * A checksummed string that reaches the receiver with exactly one byte changed
   * fails the check of line 83.
   */
  lemma CorruptedByteRejected(x: seq<byte>, i: nat, b: byte)
    requires i < |x| + 2
    requires b != (x + ToBytes(Crc(x)))[i]
    ensures var z := x + ToBytes(Crc(x));
      Crc(z[..i] + [b] + z[i + 1..]) != 0
  {
    ResidueZero(x);
    ChangedByteRejected(x + ToBytes(Crc(x)), i, b);
  }

  /** Any string the check accepts is rejected once one of its bytes is changed. */
  lemma ChangedByteRejected(z: seq<byte>, i: nat, b: byte)
    requires Crc(z) == 0
    requires i < |z| && b != z[i]
    ensures Crc(z[..i] + [b] + z[i + 1..]) != 0
  {
    SpliceAt(z, i);
    SingleByteChangeDetected(z[..i], z[i], b, z[i + 1..]);
  }

  lemma SpliceAt(z: seq<byte>, i: nat)
    requires i < |z|
    ensures z == z[..i] + [z[i]] + z[i + 1..]
  {
  }
}

/**
 * Byte stuffing of controller.py: `Message.escape_special_characters`
 * (lines 24-32) and the unescape loop the script runs over a response
 * (lines 60-69).
 */
module Stuffing {
  import opened Bytes

  /** Start-of-escape marker. */
  const SOE: byte := 0x5E

  /** The bytes that are sent as an escape pair: LF, CR, XON, XOFF and SOE itself. */
  const Reserved: set<byte> := {0x0A, 0x0D, 0x11, 0x13, SOE}

  /** The second byte of an escape pair: a reserved byte plus 0x40. */
  const EscapedForms: set<byte> := {0x4A, 0x4D, 0x51, 0x53, 0x9E}

  predicate IsReserved(b: byte)
  {
    b in Reserved
  }

  /** What one input byte becomes (lines 27-31). */
  function EscapeByte(b: byte): seq<byte>
  {
    if IsReserved(b) then [SOE, b + 0x40] else [b]
  }

  /** The escaped form of a byte string, byte by byte in order. */
  function Escape(s: seq<byte>): seq<byte>
  {
    if s == [] then [] else EscapeByte(s[0]) + Escape(s[1..])
  }

  /** How many bytes of `s` are reserved. */
  function CountReserved(s: seq<byte>): nat
  {
    if s == [] then 0 else (if IsReserved(s[0]) then 1 else 0) + CountReserved(s[1..])
  }

  // ---------------------------------------------------------------------------
  // Escaping

  /** Escaping distributes over concatenation. */
  lemma {:induction false} EscapeConcat(s: seq<byte>, t: seq<byte>)
    ensures Escape(s + t) == Escape(s) + Escape(t)
  {
    if s != [] {
      calc {
        Escape(s + t);
        { assert (s + t)[0] == s[0] && (s + t)[1..] == s[1..] + t; }
        EscapeByte(s[0]) + Escape(s[1..] + t);
        { EscapeConcat(s[1..], t); }
        EscapeByte(s[0]) + (Escape(s[1..]) + Escape(t));
      }
    } else {
      assert s + t == t;
    }
  }

  /** A single byte escapes to its escaped form. */
  lemma EscapeSingle(b: byte)
    ensures Escape([b]) == EscapeByte(b)
  {
    assert Escape([b]) == EscapeByte(b) + Escape([]);
  }

  /** Escaping one more byte appends that byte's escaped form. */
  lemma EscapeSnoc(s: seq<byte>, b: byte)
    ensures Escape(s + [b]) == Escape(s) + EscapeByte(b)
  {
    EscapeConcat(s, [b]);
    EscapeSingle(b);
  }

  /** Each reserved byte adds exactly one byte to the output. */
  lemma {:induction false} EscapeLength(s: seq<byte>)
    ensures |Escape(s)| == |s| + CountReserved(s)
  {
    if s != [] {
      EscapeLength(s[1..]);
    }
  }

  /** Escaping changes nothing in a string with no reserved byte. */
  lemma {:induction false} EscapeIdentity(s: seq<byte>)
    requires forall i :: 0 <= i < |s| ==> !IsReserved(s[i])
    ensures Escape(s) == s
  {
    if s != [] {
      EscapeIdentity(s[1..]);
      assert s == [s[0]] + s[1..];
    }
  }

  lemma {:induction false} CountReservedConcat(s: seq<byte>, t: seq<byte>)
    ensures CountReserved(s + t) == CountReserved(s) + CountReserved(t)
  {
    if s == [] {
      assert s + t == t;
    } else {
      assert (s + t)[0] == s[0] && (s + t)[1..] == s[1..] + t;
      CountReservedConcat(s[1..], t);
    }
  }

  /** A string has no reserved byte exactly when none of its bytes is counted. */
  lemma {:induction false} CountReservedZero(s: seq<byte>)
    ensures CountReserved(s) == 0 <==> forall i :: 0 <= i < |s| ==> !IsReserved(s[i])
  {
    if s != [] {
      CountReservedZero(s[1..]);
      forall i | 0 < i < |s|
        ensures s[i] == s[1..][i - 1]
      {
      }
    }
  }

  /** Escaping leaves a string unchanged exactly when it holds no reserved byte. */
  lemma EscapeUnchangedExactly(s: seq<byte>)
    ensures Escape(s) == s <==> forall i :: 0 <= i < |s| ==> !IsReserved(s[i])
  {
    EscapeLength(s);
    CountReservedZero(s);
    if forall i :: 0 <= i < |s| ==> !IsReserved(s[i]) {
      EscapeIdentity(s);
    }
  }

  /**
   * Byte `i` of `t` is as escaped output has it: not LF, CR, XON or XOFF, and if
   * it is SOE, followed by the escaped form of a reserved byte.
   */
  predicate StuffedAt(t: seq<byte>, i: nat)
    requires i < |t|
  {
    t[i] != 0x0A && t[i] != 0x0D && t[i] != 0x11 && t[i] != 0x13 &&
    (t[i] == SOE ==> i + 1 < |t| && t[i + 1] in EscapedForms)
  }

  /** The shape of escaped output, at every index. */
  predicate Stuffed(t: seq<byte>)
  {
    forall i :: 0 <= i < |t| ==> StuffedAt(t, i)
  }

  lemma StuffedConcat(s: seq<byte>, t: seq<byte>)
    requires Stuffed(s) && Stuffed(t)
    ensures Stuffed(s + t)
  {
    forall i | 0 <= i < |s + t|
      ensures StuffedAt(s + t, i)
    {
      if i < |s| {
        assert StuffedAt(s, i);
        assert (s + t)[i] == s[i];
        if s[i] == SOE {
          assert (s + t)[i + 1] == s[i + 1];
        }
      } else {
        assert StuffedAt(t, i - |s|);
        assert (s + t)[i] == t[i - |s|];
        if t[i - |s|] == SOE {
          assert (s + t)[i + 1] == t[i + 1 - |s|];
        }
      }
    }
  }

  /** Escaped output never holds a bare control byte and never a dangling SOE. */
  lemma {:induction false} EscapeStuffed(s: seq<byte>)
    ensures Stuffed(Escape(s))
  {
    if s != [] {
      EscapeStuffed(s[1..]);
      StuffedConcat(EscapeByte(s[0]), Escape(s[1..]));
    }
  }

  /** `escape_special_characters`: the loop of lines 25-32. */
  method EscapeSpecialCharacters(data: seq<byte>) returns (escaped: seq<byte>)
    ensures escaped == Escape(data)
  {
    escaped := [];
    var i := 0;
    while i < |data|
      invariant 0 <= i <= |data|
      invariant escaped == Escape(data[..i])
    {
      var b := data[i];
      if b in [0x0A, 0x0D, 0x11, 0x13, 0x5E] {
        escaped := escaped + [SOE];
        escaped := escaped + [b + 0x40];
      } else {
        escaped := escaped + [b];
      }
      EscapeSnoc(data[..i], b);
      assert data[..i + 1] == data[..i] + [b];
      i := i + 1;
    }
    assert data[..i] == data;
  }

  // ---------------------------------------------------------------------------
  // Unescaping (lines 60-69)

  /** `bytearray.append(byte - 64)` raises for the byte at this index of the response. */
  datatype UnescapeError = NegativeByte(at: nat)

  /** Puts `prefix` in front of a successful result; an error passes through. */
  function Prepend(prefix: seq<byte>, r: Result<seq<byte>, UnescapeError>): Result<seq<byte>, UnescapeError>
  {
    match r
    case Ok(rest) => Ok(prefix + rest)
    case Err(e) => Err(e)
  }

  /** How many SOE markers `s` holds. */
  function CountSoe(s: seq<byte>): nat
  {
    if s == [] then 0 else (if s[0] == SOE then 1 else 0) + CountSoe(s[1..])
  }

  lemma {:induction false} CountSoeConcat(s: seq<byte>, t: seq<byte>)
    ensures CountSoe(s + t) == CountSoe(s) + CountSoe(t)
  {
    if s == [] {
      assert s + t == t;
    } else {
      assert (s + t)[0] == s[0] && (s + t)[1..] == s[1..] + t;
      CountSoeConcat(s[1..], t);
    }
  }

  lemma CountSoeCons(b: byte, t: seq<byte>)
    ensures CountSoe([b] + t) == (if b == SOE then 1 else 0) + CountSoe(t)
  {
    assert ([b] + t)[0] == b && ([b] + t)[1..] == t;
  }

  /** The escaped form of one byte holds one marker if the byte is reserved, none otherwise. */
  lemma CountSoeEscapeByte(b: byte)
    ensures CountSoe(EscapeByte(b)) == if IsReserved(b) then 1 else 0
  {
    var e := EscapeByte(b);
    if IsReserved(b) {
      assert b + 0x40 != SOE;
      assert e[1..] == [b + 0x40] && e[1..][1..] == [];
      assert CountSoe(e[1..]) == 0;
    } else {
      assert e[1..] == [];
    }
  }

  /**
   * The unescape loop from index `at` on, over the remaining bytes `s`, with the
   * escape flag `pending`. An SOE is always taken as a marker (so SOE right after
   * SOE leaves the flag set); a flagged byte below 0x40 makes `byte - 64` negative.
   */
  function UnescapeFrom(s: seq<byte>, pending: bool, at: nat): Result<seq<byte>, UnescapeError>
  {
    if s == [] then Ok([])
    else if s[0] == SOE then UnescapeFrom(s[1..], true, at + 1)
    else if pending then
      if s[0] < 0x40 then Err(NegativeByte(at))
      else Prepend([s[0] - 0x40], UnescapeFrom(s[1..], false, at + 1))
    else Prepend([s[0]], UnescapeFrom(s[1..], false, at + 1))
  }

  /** The whole response, from index 0 with no escape pending. */
  function Unescape(s: seq<byte>): Result<seq<byte>, UnescapeError>
  {
    UnescapeFrom(s, false, 0)
  }

  lemma PrependNothing(r: Result<seq<byte>, UnescapeError>)
    ensures Prepend([], r) == r
  {
    match r
    case Ok(rest) => assert [] + rest == rest;
    case Err(_) =>
  }

  lemma PrependPrepend(a: seq<byte>, b: seq<byte>, r: Result<seq<byte>, UnescapeError>)
    ensures Prepend(a, Prepend(b, r)) == Prepend(a + b, r)
  {
    match r
    case Ok(rest) => assert a + (b + rest) == (a + b) + rest;
    case Err(_) =>
  }

  /** The script's unescape loop (lines 60-69). */
  method UnescapeResponse(response: seq<byte>) returns (r: Result<seq<byte>, UnescapeError>)
    ensures r == Unescape(response)
  {
    var unescaped: seq<byte> := [];
    var escapeSequence := false;
    var i := 0;
    assert response[i..] == response;
    PrependNothing(Unescape(response));
    while i < |response|
      invariant 0 <= i <= |response|
      invariant Unescape(response) == Prepend(unescaped, UnescapeFrom(response[i..], escapeSequence, i))
    {
      var b := response[i];
      assert response[i..][0] == b && response[i..][1..] == response[i + 1..];
      if b == SOE {
        escapeSequence := true;
      } else if escapeSequence {
        if b < 0x40 {
          return Err(NegativeByte(i));
        }
        PrependPrepend(unescaped, [b - 0x40], UnescapeFrom(response[i + 1..], false, i + 1));
        unescaped := unescaped + [b - 0x40];
        escapeSequence := false;
      } else {
        PrependPrepend(unescaped, [b], UnescapeFrom(response[i + 1..], false, i + 1));
        unescaped := unescaped + [b];
      }
      i := i + 1;
    }
    assert unescaped + [] == unescaped;
    r := Ok(unescaped);
  }

  // ---------------------------------------------------------------------------
  // Properties of unescaping

  /** An escape pair decodes to the reserved byte it stands for. */
  lemma UnescapePair(b: byte, rest: seq<byte>, at: nat)
    requires IsReserved(b)
    ensures UnescapeFrom([SOE, b + 0x40] + rest, false, at) == Prepend([b], UnescapeFrom(rest, false, at + 2))
  {
    var s := [SOE, b + 0x40] + rest;
    assert s[0] == SOE && s[1..] == [b + 0x40] + rest;
    assert ([b + 0x40] + rest)[1..] == rest;
  }

  /** A byte other than SOE, with no escape pending, is copied. */
  lemma UnescapePlain(b: byte, rest: seq<byte>, at: nat)
    requires b != SOE
    ensures UnescapeFrom([b] + rest, false, at) == Prepend([b], UnescapeFrom(rest, false, at + 1))
  {
    assert ([b] + rest)[1..] == rest;
  }

  /**
   * Unescaping undoes escaping: escaped bytes followed by anything decode to the
   * original bytes followed by the decoding of the rest.
   */
  lemma {:induction false} UnescapeEscapeThen(x: seq<byte>, t: seq<byte>, at: nat)
    ensures UnescapeFrom(Escape(x) + t, false, at) == Prepend(x, UnescapeFrom(t, false, at + |Escape(x)|))
  {
    if x == [] {
      assert Escape(x) + t == t;
      PrependNothing(UnescapeFrom(t, false, at));
    } else {
      var b := x[0];
      var rest := Escape(x[1..]) + t;
      var tail := UnescapeFrom(t, false, at + |Escape(x)|);
      UnescapeEscapeThen(x[1..], t, at + |EscapeByte(b)|);
      assert Escape(x) + t == EscapeByte(b) + rest;
      if IsReserved(b) {
        UnescapePair(b, rest, at);
      } else {
        UnescapePlain(b, rest, at);
      }
      PrependPrepend([b], x[1..], tail);
      assert [b] + x[1..] == x;
    }
  }

  /** Bytes without an SOE, with no escape pending, are copied unchanged. */
  lemma {:induction false} UnescapeCopyThen(x: seq<byte>, t: seq<byte>, at: nat)
    requires SOE !in x
    ensures UnescapeFrom(x + t, false, at) == Prepend(x, UnescapeFrom(t, false, at + |x|))
  {
    if x == [] {
      assert x + t == t;
      PrependNothing(UnescapeFrom(t, false, at));
    } else {
      assert x + t == [x[0]] + (x[1..] + t);
      UnescapePlain(x[0], x[1..] + t, at);
      UnescapeCopyThen(x[1..], t, at + 1);
      PrependPrepend([x[0]], x[1..], UnescapeFrom(t, false, at + |x|));
      assert [x[0]] + x[1..] == x;
    }
  }

  /** A string holds no marker exactly when SOE is not one of its bytes. */
  lemma {:induction false} CountSoeZero(s: seq<byte>)
    ensures CountSoe(s) == 0 <==> SOE !in s
  {
    if s != [] {
      CountSoeZero(s[1..]);
      assert s == [s[0]] + s[1..];
    }
  }

  /** Round trip: the unescape loop over `escape_special_characters(x)` yields `x`. */
  lemma UnescapeEscape(x: seq<byte>)
    ensures Unescape(Escape(x)) == Ok(x)
  {
    UnescapeEscapeThen(x, [], 0);
    assert Escape(x) + [] == Escape(x);
    assert x + [] == x;
  }

  /** Escaping is injective: different byte strings never escape to the same bytes. */
  lemma EscapeInjective(x: seq<byte>, y: seq<byte>)
    requires Escape(x) == Escape(y)
    ensures x == y
  {
    UnescapeEscape(x);
    UnescapeEscape(y);
  }

  /**
   * Byte `i` of `s` is one that the loop would turn into a negative value: it is
   * below 0x40 and follows an SOE (or, at index 0, an escape is already pending).
   */
  predicate FlaggedLow(s: seq<byte>, pending: bool, i: nat)
    requires i < |s|
  {
    s[i] < 0x40 && (if i == 0 then pending else s[i - 1] == SOE)
  }

  lemma FlaggedLowShift(s: seq<byte>, pending: bool, i: nat)
    requires i + 1 < |s|
    ensures FlaggedLow(s, pending, i + 1) == FlaggedLow(s[1..], s[0] == SOE, i)
  {
  }

  /**
   * Unescaping fails exactly when some byte below 0x40 follows an SOE, and the
   * error names the first such byte.
   */
  lemma {:induction false} UnescapeFailsExactly(s: seq<byte>, pending: bool, at: nat)
    ensures UnescapeFrom(s, pending, at).Err? <==> exists i :: 0 <= i < |s| && FlaggedLow(s, pending, i)
    ensures UnescapeFrom(s, pending, at).Err? ==>
      var k := UnescapeFrom(s, pending, at).error.at - at;
      0 <= k < |s| && FlaggedLow(s, pending, k) && forall j :: 0 <= j < k ==> !FlaggedLow(s, pending, j)
  {
    if s != [] {
      var next := s[0] == SOE;
      UnescapeFailsExactly(s[1..], next, at + 1);
      forall i | 0 <= i < |s| - 1
        ensures FlaggedLow(s, pending, i + 1) == FlaggedLow(s[1..], next, i)
      {
        FlaggedLowShift(s, pending, i);
      }
      if !next && pending && s[0] < 0x40 {
        assert FlaggedLow(s, pending, 0);
      } else {
        assert !FlaggedLow(s, pending, 0);
        assert UnescapeFrom(s, pending, at).Err? == UnescapeFrom(s[1..], next, at + 1).Err?;
        if UnescapeFrom(s, pending, at).Err? {
          assert UnescapeFrom(s, pending, at).error == UnescapeFrom(s[1..], next, at + 1).error;
          var k := UnescapeFrom(s[1..], next, at + 1).error.at - (at + 1);
          forall j | 0 <= j < k + 1 ensures !FlaggedLow(s, pending, j) {
            if j > 0 { FlaggedLowShift(s, pending, j - 1); }
          }
        }
        if exists i :: 0 <= i < |s| && FlaggedLow(s, pending, i) {
          var i :| 0 <= i < |s| && FlaggedLow(s, pending, i);
          assert i > 0;
          FlaggedLowShift(s, pending, i - 1);
        }
      }
    }
  }

  /**
   * Every marker is dropped and every other byte gives exactly one output byte;
   * a failure names an index inside `s`.
   */
  lemma {:induction false} UnescapeLength(s: seq<byte>, pending: bool, at: nat)
    ensures var r := UnescapeFrom(s, pending, at);
      (r.Ok? ==> |r.value| + CountSoe(s) == |s|) &&
      (r.Err? ==> at <= r.error.at < at + |s|)
  {
    if s != [] {
      UnescapeLength(s[1..], s[0] == SOE, at + 1);
    }
  }

  /** A trailing SOE is dropped silently: it changes neither the output nor the verdict. */
  lemma {:induction false} UnescapeTrailingSoe(s: seq<byte>, pending: bool, at: nat)
    ensures UnescapeFrom(s + [SOE], pending, at) == UnescapeFrom(s, pending, at)
  {
    if s == [] {
      assert [SOE][1..] == [];
    } else {
      assert (s + [SOE])[0] == s[0] && (s + [SOE])[1..] == s[1..] + [SOE];
      UnescapeTrailingSoe(s[1..], s[0] == SOE, at + 1);
    }
  }

  /** An SOE right after an SOE is read as another marker; the escape stays pending. */
  lemma UnescapeDoubleSoe(t: seq<byte>, pending: bool, at: nat)
    ensures UnescapeFrom([SOE, SOE] + t, pending, at) == UnescapeFrom(t, true, at + 2)
  {
    assert ([SOE, SOE] + t)[1..] == [SOE] + t;
    assert ([SOE] + t)[1..] == t;
  }
}

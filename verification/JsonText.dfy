// JsonEscape of Json.cpp, and the reader of RFC 8259 section 7 strings that undoes it.
module JsonText {
  import opened Machine
  import opened Utf8

  const QUOTE: Byte := 0x22
  const BACKSLASH: Byte := 0x5C
  const DEL: Byte := 0x7F

  function HexDigit(n: nat): (b: Byte)
    requires n < 16
  {
    if n < 10 then 0x30 + n else 0x61 + (n - 10)
  }

  // AppendEscapedUnit: \u00XY for one byte.
  function EscapedUnit(b: Byte): Text
  {
    [BACKSLASH, 0x75, 0x30, 0x30, HexDigit(b / 16), HexDigit(b % 16)]
  }

  // What JsonEscape appends for the front of s, and how many bytes of s that accounts for.
  function EscapeFront(s: Text): (r: (Text, nat))
    requires s != []
    ensures 0 < r.1 <= |s|
  {
    var b := s[0];
    if b == QUOTE || b == BACKSLASH then ([BACKSLASH, b], 1)
    else if b == 0x0A then ([BACKSLASH, 0x6E], 1)
    else if b == 0x0D then ([BACKSLASH, 0x72], 1)
    else if b == 0x09 then ([BACKSLASH, 0x74], 1)
    else if b < 0x20 || b == DEL then (EscapedUnit(b), 1)
    else
      var n := PrefixLength(s);
      if n == 0 then ([0xEF, 0xBF, 0xBD], 1) else (s[..n], n)
  }

  function Escape(s: Text): Text
  {
    if s == [] then [] else EscapeFront(s).0 + Escape(s[EscapeFront(s).1..])
  }

  lemma EscapeStep(text: Text, i: nat, out: Text)
    requires i < |text|
    ensures var (unit, n) := EscapeFront(text[i..]);
            out + Escape(text[i..]) == out + unit + Escape(text[i + n..])
  {
    hide EscapeFront;
    var (unit, n) := EscapeFront(text[i..]);
    assert text[i..][n..] == text[i + n..];
    assert out + (unit + Escape(text[i + n..])) == out + unit + Escape(text[i + n..]);
  }

  // The body of JsonEscape's loop: what it appends at position i, and how far it moves on.
  method EscapeAt(text: Text, i: nat) returns (unit: Text, step: nat)
    requires i < |text|
    ensures (unit, step) == EscapeFront(text[i..])
  {
    var b := text[i];
    if b == QUOTE || b == BACKSLASH {
      return [BACKSLASH, b], 1;
    }
    if b == 0x0A {
      return [BACKSLASH, 0x6E], 1;
    }
    if b == 0x0D {
      return [BACKSLASH, 0x72], 1;
    }
    if b == 0x09 {
      return [BACKSLASH, 0x74], 1;
    }
    if b < 0x20 || b == DEL {
      return EscapedUnit(b), 1;
    }
    var length := SequenceLength(text, i);
    if length == 0 {
      return [0xEF, 0xBF, 0xBD], 1;
    }
    assert text[i..i + length] == text[i..][..length];
    return text[i..i + length], length;
  }

  method JsonEscape(text: Text) returns (out: Text)
    ensures out == Escape(text)
  {
    hide EscapeFront;
    out := [];
    var i := 0;
    while i < |text|
      invariant 0 <= i <= |text|
      invariant out + Escape(text[i..]) == Escape(text)
    {
      var unit, step := EscapeAt(text, i);
      EscapeStep(text, i, out);
      out := out + unit;
      i := i + step;
    }
    assert text[i..] == [];
  }

  // ---------------------------------------------------------------------------------------------
  // The reader: RFC 8259 section 7, all escapes and surrogate pairs included.

  function HexValue(b: Byte): Option<nat>
  {
    if 0x30 <= b <= 0x39 then Some(b - 0x30)
    else if 0x61 <= b <= 0x66 then Some(b - 0x61 + 10)
    else if 0x41 <= b <= 0x46 then Some(b - 0x41 + 10)
    else None
  }

  function ReadHex4(s: Text): (r: Option<nat>)
    ensures r.Some? ==> |s| >= 4
  {
    if |s| < 4 then None
    else match (HexValue(s[0]), HexValue(s[1]), HexValue(s[2]), HexValue(s[3]))
      case (Some(a), Some(b), Some(c), Some(d)) => Some(a * 4096 + b * 256 + c * 16 + d)
      case _ => None
  }

  // The character a \uXXXX escape denotes, s starting just behind the 'u'.
  function ReadUnicode(s: Text): (r: Option<(Scalar, Text)>)
    ensures r.Some? ==> |r.value.1| < |s|
  {
    match ReadHex4(s)
    case None => None
    case Some(high) =>
      if IsScalar(high) then Some((high, s[4..]))
      else if 0xD800 <= high < 0xDC00 && |s| >= 6 && s[4] == BACKSLASH && s[5] == 0x75 then
        match ReadHex4(s[6..])
        case Some(low) =>
          var cp := 0x1_0000 + (high - 0xD800) * 0x400 + (low - 0xDC00);
          if 0xDC00 <= low < 0xE000 && IsScalar(cp) then Some((cp, s[10..])) else None
        case None => None
      else None
  }

  // The character an escape denotes, s starting just behind the backslash.
  function ReadEscape(s: Text): (r: Option<(Scalar, Text)>)
    ensures r.Some? ==> |r.value.1| < |s|
  {
    if s == [] then None
    else if s[0] == QUOTE || s[0] == BACKSLASH || s[0] == 0x2F then Some((s[0], s[1..]))
    else if s[0] == 0x62 then Some((0x08, s[1..]))
    else if s[0] == 0x66 then Some((0x0C, s[1..]))
    else if s[0] == 0x6E then Some((0x0A, s[1..]))
    else if s[0] == 0x72 then Some((0x0D, s[1..]))
    else if s[0] == 0x74 then Some((0x09, s[1..]))
    else if s[0] == 0x75 then ReadUnicode(s[1..])
    else None
  }

  // One character of a string, s starting at it; None at malformed text.
  function ReadChar(s: Text): (r: Option<(Scalar, Text)>)
    requires s != []
    ensures r.Some? ==> |r.value.1| < |s|
  {
    if s[0] == BACKSLASH then ReadEscape(s[1..])
    else if s[0] < 0x20 || PrefixLength(s) == 0 then None
    else
      AcceptedIsAnEncoding(s);
      Some((Decode(s[..PrefixLength(s)]), s[PrefixLength(s)..]))
  }

  // The characters up to the closing quotation mark, and the text behind it.
  function ReadChars(s: Text): (r: Option<(seq<Scalar>, Text)>)
    ensures r.Some? ==> |r.value.1| < |s|
    decreases |s|
  {
    if s == [] then None
    else if s[0] == QUOTE then Some(([], s[1..]))
    else match ReadChar(s)
      case None => None
      case Some((cp, rest)) =>
        match ReadChars(rest)
        case None => None
        case Some((cps, behind)) => Some(([cp] + cps, behind))
  }

  // ---------------------------------------------------------------------------------------------

  // The scalar value that the front of s stands for once the text is read leniently.
  function FrontScalar(s: Text): Scalar
    requires s != []
  {
    if PrefixLength(s) == 0 then REPLACEMENT else AcceptedIsAnEncoding(s); Decode(s[..PrefixLength(s)])
  }

  lemma FrontOfScalars(s: Text)
    requires s != []
    ensures Scalars(s) == [FrontScalar(s)] + Scalars(s[EscapeFront(s).1..])
  {
  }

  lemma ReplacementIsRead(rest: Text)
    ensures PrefixLength([0xEF, 0xBF, 0xBD] + rest) == 3
    ensures Decode([0xEF, 0xBF, 0xBD]) == REPLACEMENT
  {
    assert Encode(REPLACEMENT) == [0xEF, 0xBF, 0xBD];
    EncodingIsAccepted(REPLACEMENT, rest);
  }

  lemma EscapedUnitIsRead(b: Byte, rest: Text)
    requires b < 0x80
    ensures EscapedUnit(b) + rest != []
    ensures ReadChar(EscapedUnit(b) + rest) == Some((b, rest))
  {
    var s := EscapedUnit(b) + rest;
    var t := s[1..][1..];
    assert HexValue(HexDigit(b / 16)) == Some(b / 16) && HexValue(HexDigit(b % 16)) == Some(b % 16);
    assert t[0] == 0x30 && t[1] == 0x30 && t[2] == HexDigit(b / 16) && t[3] == HexDigit(b % 16);
    assert ReadHex4(t) == Some(b as nat);
    assert t[4..] == rest;
    assert s[1..][0] == 0x75;
  }

  // The escape of the front of s is one character to the reader, and not the closing quotation mark.
  lemma FrontIsRead(s: Text, rest: Text)
    requires s != []
    ensures var e := EscapeFront(s).0 + rest;
            e != [] && e[0] != QUOTE && ReadChar(e) == Some((FrontScalar(s), rest))
  {
    var b := s[0];
    var (unit, n) := EscapeFront(s);
    var e := unit + rest;
    if b == QUOTE || b == BACKSLASH || b == 0x0A || b == 0x0D || b == 0x09 {
      assert e[1..] == [unit[1]] + rest && e[1..][1..] == rest;
      assert PrefixLength(s) == 1;
    } else if b < 0x20 || b == DEL {
      EscapedUnitIsRead(b, rest);
      assert PrefixLength(s) == 1;
    } else if PrefixLength(s) == 0 {
      ReplacementIsRead(rest);
      assert e[..3] == unit && e[3..] == rest;
    } else {
      PrefixOfFront(s);
      PrefixIsLocal(unit, rest);
      assert e[..n] == unit && e[n..] == rest;
      assert unit[0] == b;
    }
  }

  lemma PrefixOfFront(s: Text)
    requires s != [] && PrefixLength(s) > 0
    ensures PrefixLength(s[..PrefixLength(s)]) == PrefixLength(s)
  {
    var n := PrefixLength(s);
    forall i | 2 <= i < n ensures IsContinuation(s[..n][i]) {
      assert IsContinuation(s[i]);
    }
  }

  // Unescaping returns the text as a lenient UTF-8 reader sees it, and stops exactly at the quotation
  // mark that the writer puts behind it.
  lemma {:induction false} UnescapeOfEscape(s: Text, rest: Text)
    ensures ReadChars(Escape(s) + [QUOTE] + rest) == Some((Scalars(s), rest))
  {
    if s == [] {
      assert Escape(s) + [QUOTE] + rest == [QUOTE] + rest;
    } else {
      var (unit, n) := EscapeFront(s);
      var behind := Escape(s[n..]) + [QUOTE] + rest;
      assert Escape(s) + [QUOTE] + rest == unit + behind;
      FrontIsRead(s, behind);
      UnescapeOfEscape(s[n..], rest);
      FrontOfScalars(s);
    }
  }

  // For well-formed text nothing is replaced.
  lemma WellFormedTextIsUnchanged(cps: seq<Scalar>, rest: Text)
    ensures ReadChars(Escape(EncodeAll(cps)) + [QUOTE] + rest) == Some((cps, rest))
  {
    UnescapeOfEscape(EncodeAll(cps), rest);
    ScalarsRecoverEncoded(cps);
  }

  // ---------------------------------------------------------------------------------------------
  // The escaped text is well-formed UTF-8 without raw control bytes.

  // JSON escaping of one character, said in characters.
  function EscapeScalar(cp: Scalar): seq<Scalar>
  {
    if cp == QUOTE || cp == BACKSLASH then [BACKSLASH, cp]
    else if cp == 0x0A then [BACKSLASH, 0x6E]
    else if cp == 0x0D then [BACKSLASH, 0x72]
    else if cp == 0x09 then [BACKSLASH, 0x74]
    else if cp < 0x20 || cp == DEL then [BACKSLASH, 0x75, 0x30, 0x30, HexDigit(cp / 16), HexDigit(cp % 16)]
    else [cp]
  }

  function EscapeScalars(cps: seq<Scalar>): seq<Scalar>
  {
    if cps == [] then [] else EscapeScalar(cps[0]) + EscapeScalars(cps[1..])
  }

  lemma {:induction false} EncodeAscii(cps: seq<Scalar>)
    requires forall i | 0 <= i < |cps| :: cps[i] < 0x80
    ensures EncodeAll(cps) == cps
  {
    if cps != [] {
      EncodeAscii(cps[1..]);
      assert cps == [cps[0]] + cps[1..];
    }
  }

  lemma FrontIsEncoded(s: Text)
    requires s != []
    ensures EscapeFront(s).0 == EncodeAll(EscapeScalar(FrontScalar(s)))
  {
    var cp := FrontScalar(s);
    if PrefixLength(s) > 0 { AcceptedIsAnEncoding(s); }
    if s[0] < 0x80 {
      assert cp == s[0];
      EncodeAscii(EscapeScalar(cp));
    } else {
      assert PrefixLength(s) > 0 ==> Encode(cp)[0] == s[0];
      assert Encode(REPLACEMENT) == [0xEF, 0xBF, 0xBD];
      assert EscapeScalar(cp) == [cp];
      assert EncodeAll([cp][1..]) == [];
      assert EncodeAll([cp]) == Encode(cp);
    }
  }

  // Escaping bytes is escaping the characters they stand for.
  lemma {:induction false} EscapeActsOnScalars(s: Text)
    ensures Escape(s) == EncodeAll(EscapeScalars(Scalars(s)))
    ensures WellFormed(Escape(s))
  {
    if s != [] {
      var n := EscapeFront(s).1;
      FrontIsEncoded(s);
      FrontOfScalars(s);
      EscapeActsOnScalars(s[n..]);
      EncodeAllConcat(EscapeScalar(FrontScalar(s)), EscapeScalars(Scalars(s[n..])));
      assert Scalars(s)[1..] == Scalars(s[n..]);
    }
  }

  predicate IsRaw(b: Byte) { b < 0x20 || b == DEL }

  lemma {:induction false} NoRawControlByte(s: Text)
    ensures forall i | 0 <= i < |Escape(s)| :: !IsRaw(Escape(s)[i])
  {
    if s != [] {
      var (unit, n) := EscapeFront(s);
      NoRawControlByte(s[n..]);
      forall i | 0 <= i < |unit| ensures !IsRaw(unit[i]) {
        if i >= 2 && PrefixLength(s) > 2 && unit == s[..PrefixLength(s)] { assert IsContinuation(s[i]); }
      }
    }
  }

  // What is escaped, and how: nothing but the quotation mark, the backslash, DEL and the control bytes.
  lemma EscapesAre(s: Text)
    requires s != []
    ensures var b, unit := s[0], EscapeFront(s).0;
            && (b == 0x22 ==> unit == [0x5C, 0x22]) && (b == 0x5C ==> unit == [0x5C, 0x5C])
            && (b == 0x0A ==> unit == [0x5C, 0x6E]) && (b == 0x0D ==> unit == [0x5C, 0x72])
            && (b == 0x09 ==> unit == [0x5C, 0x74])
            && ((b < 0x20 && b !in {0x09, 0x0A, 0x0D}) || b == 0x7F ==>
                |unit| == 6 && unit[..4] == [0x5C, 0x75, 0x30, 0x30]
                && HexValue(unit[4]) == Some(b / 16) && HexValue(unit[5]) == Some(b % 16)
                && unit[4] == 0x30 + b / 16
                && unit[5] == if b % 16 < 10 then 0x30 + b % 16 else 0x57 + b % 16)
            && (0x20 <= b < 0x7F && b != 0x22 && b != 0x5C ==> unit == [b])
            && (b >= 0x80 ==> unit == if PrefixLength(s) == 0 then [0xEF, 0xBF, 0xBD] else s[..PrefixLength(s)])
  {
  }

  predicate IsPlain(cp: Scalar)
  {
    cp >= 0x20 && cp != 0x22 && cp != 0x5C && cp != 0x7F
  }

  // Well-formed text without those is copied as it is.
  lemma PlainTextIsCopied(cps: seq<Scalar>)
    requires forall i | 0 <= i < |cps| :: IsPlain(cps[i])
    ensures Escape(EncodeAll(cps)) == EncodeAll(cps)
  {
    hide Escape;
    EscapeActsOnScalars(EncodeAll(cps));
    ScalarsRecoverEncoded(cps);
    PlainScalars(cps);
  }

  lemma PlainScalar(cp: Scalar)
    requires IsPlain(cp)
    ensures EscapeScalar(cp) == [cp]
  {
  }

  lemma {:induction false} PlainScalars(cps: seq<Scalar>)
    requires forall i | 0 <= i < |cps| :: IsPlain(cps[i])
    ensures EscapeScalars(cps) == cps
  {
    if cps != [] {
      PlainScalar(cps[0]);
      hide IsPlain, EscapeScalar;
      PlainScalars(cps[1..]);
      assert cps == [cps[0]] + cps[1..];
    }
  }
}

// UTF-8 as RFC 3629 section 4 defines it, and the byte-level recogniser of Json.cpp.
module Utf8 {
  import opened Machine

  predicate IsScalar(cp: int)
  {
    0 <= cp < 0xD800 || 0xE000 <= cp < 0x11_0000
  }

  // A Unicode scalar value: every code point but the surrogates.
  type Scalar = cp: int | 0 <= cp < 0xD800 || 0xE000 <= cp < 0x11_0000

  const REPLACEMENT: Scalar := 0xFFFD

  // RFC 3629 section 3: the one encoding of a scalar value.
  function Encode(cp: Scalar): (s: Text)
    ensures 1 <= |s| <= 4
  {
    if cp < 0x80 then [cp]
    else if cp < 0x800 then [0xC0 + cp / 0x40, 0x80 + cp % 0x40]
    else if cp < 0x1_0000 then [0xE0 + cp / 0x1000, 0x80 + cp / 0x40 % 0x40, 0x80 + cp % 0x40]
    else [0xF0 + cp / 0x4_0000, 0x80 + cp / 0x1000 % 0x40, 0x80 + cp / 0x40 % 0x40, 0x80 + cp % 0x40]
  }

  function EncodeAll(cps: seq<Scalar>): (s: Text)
  {
    if cps == [] then [] else Encode(cps[0]) + EncodeAll(cps[1..])
  }

  ghost predicate WellFormed(s: Text)
  {
    exists cps: seq<Scalar> :: EncodeAll(cps) == s
  }

  function Tail(b: Byte): int
  {
    b as int - 0x80
  }

  // The bits a sequence of this shape carries.
  function Decode(s: Text): int
    requires 1 <= |s| <= 4
  {
    var lead: int := s[0];
    if |s| == 1 then lead
    else if |s| == 2 then (lead - 0xC0) * 0x40 + Tail(s[1])
    else if |s| == 3 then (lead - 0xE0) * 0x1000 + Tail(s[1]) * 0x40 + Tail(s[2])
    else (lead - 0xF0) * 0x4_0000 + Tail(s[1]) * 0x1000 + Tail(s[2]) * 0x40 + Tail(s[3])
  }

  predicate IsContinuation(b: Byte) { b / 0x40 == 2 }

  predicate SecondByteFits(lead: Byte, second: Byte)
  {
    if lead == 0xE0 then 0xA0 <= second <= 0xBF
    else if lead == 0xED then 0x80 <= second <= 0x9F
    else if lead == 0xF0 then 0x90 <= second <= 0xBF
    else if lead == 0xF4 then 0x80 <= second <= 0x8F
    else 0x80 <= second <= 0xBF
  }

  function LeadLength(lead: Byte): (n: nat)
    ensures n == 0 || 2 <= n <= 4
  {
    if 0xC2 <= lead <= 0xDF then 2
    else if 0xE0 <= lead <= 0xEF then 3
    else if 0xF0 <= lead <= 0xF4 then 4
    else 0
  }

  // The length of the sequence at the front of s that the recogniser accepts, or 0.
  function PrefixLength(s: Text): (n: nat)
    requires s != []
    ensures n <= 4 && n <= |s|
  {
    if s[0] < 0x80 then 1
    else
      var n := LeadLength(s[0]);
      if n == 0 || n > |s| then 0
      else if !SecondByteFits(s[0], s[1]) then 0
      else if forall i | 2 <= i < n :: IsContinuation(s[i]) then n
      else 0
  }

  // SequenceLength of Json.cpp, with its loop over the third and fourth byte.
  method SequenceLength(text: Text, index: nat) returns (length: nat)
    requires index < |text|
    ensures length == PrefixLength(text[index..])
  {
    var lead := text[index];
    if lead < 0x80 {
      return 1;
    }
    length := 0;
    if 0xC2 <= lead <= 0xDF { length := 2; }
    if 0xE0 <= lead <= 0xEF { length := 3; }
    if 0xF0 <= lead <= 0xF4 { length := 4; }
    if length == 0 || index + length > |text| {
      return 0;
    }
    if !SecondByteFits(lead, text[index + 1]) {
      return 0;
    }
    var i := 2;
    while i < length
      invariant 2 <= i <= length
      invariant forall j | 2 <= j < i :: IsContinuation(text[index..][j])
    {
      if !IsContinuation(text[index + i]) {
        assert !IsContinuation(text[index..][i]);
        return 0;
      }
      i := i + 1;
    }
  }

  // What is accepted is the encoding of a scalar value ...
  lemma AcceptedIsAnEncoding(s: Text)
    requires s != [] && PrefixLength(s) > 0
    ensures var front := s[..PrefixLength(s)];
            IsScalar(Decode(front)) && Encode(Decode(front)) == front
  {
    var n := PrefixLength(s);
    if n == 3 {
      assert IsContinuation(s[2]);
      ThreeBytesEncode(s[..n]);
    } else if n == 4 {
      assert IsContinuation(s[2]) && IsContinuation(s[3]);
      FourBytesEncode(s[..n]);
    }
  }

  lemma ThreeBytesEncode(s: Text)
    requires |s| == 3 && LeadLength(s[0]) == 3 && SecondByteFits(s[0], s[1]) && IsContinuation(s[2])
    ensures IsScalar(Decode(s)) && Encode(Decode(s)) == s
  {
    Digits64(0, s[0] - 0xE0, Tail(s[1]), Tail(s[2]));
  }

  lemma FourBytesEncode(s: Text)
    requires |s| == 4 && LeadLength(s[0]) == 4 && SecondByteFits(s[0], s[1])
    requires IsContinuation(s[2]) && IsContinuation(s[3])
    ensures IsScalar(Decode(s)) && Encode(Decode(s)) == s
  {
    Digits64(s[0] - 0xF0, Tail(s[1]), Tail(s[2]), Tail(s[3]));
  }

  // Base-64 digits can be read back off the number they make.
  lemma Digits64(a: int, b: int, c: int, d: int)
    requires 0 <= a < 0x40 && 0 <= b < 0x40 && 0 <= c < 0x40 && 0 <= d < 0x40
    ensures var n := a * 0x4_0000 + b * 0x1000 + c * 0x40 + d;
            n / 0x4_0000 == a && n / 0x1000 % 0x40 == b && n / 0x1000 == a * 0x40 + b
            && n / 0x40 % 0x40 == c && n % 0x40 == d
  {
    var n := a * 0x4_0000 + b * 0x1000 + c * 0x40 + d;
    LastDigit64(a * 0x1000 + b * 0x40 + c, d);
    LastDigit64(a * 0x40 + b, c);
    LastDigit64(a, b);
    Split64(n);
  }

  lemma LastDigit64(front: nat, last: nat)
    requires last < 0x40
    ensures (front * 0x40 + last) / 0x40 == front && (front * 0x40 + last) % 0x40 == last
  {
  }

  // A number is made of its base-64 digits.
  lemma Split64(n: nat)
    ensures n / 0x40 / 0x40 == n / 0x1000 && n / 0x1000 / 0x40 == n / 0x4_0000
  {
  }

  // Only the bytes of the sequence itself matter to the recogniser.
  lemma PrefixIsLocal(s: Text, rest: Text)
    requires s != [] && PrefixLength(s) == |s|
    ensures PrefixLength(s + rest) == |s|
  {
    var t := s + rest;
    assert forall i | 0 <= i < |s| :: t[i] == s[i];
  }

  lemma EncodingDecodes(cp: Scalar)
    ensures Decode(Encode(cp)) == cp
  {
    Split64(cp);
  }

  lemma LeadAndSecondFit(cp: Scalar)
    requires cp >= 0x80
    ensures LeadLength(Encode(cp)[0]) == |Encode(cp)|
    ensures SecondByteFits(Encode(cp)[0], Encode(cp)[1])
  {
    Split64(cp);
  }

  // ... and the encoding of every scalar value is accepted, whatever follows it.
  lemma EncodingIsAccepted(cp: Scalar, rest: Text)
    ensures PrefixLength(Encode(cp) + rest) == |Encode(cp)|
    ensures Decode(Encode(cp)) == cp
  {
    var e := Encode(cp);
    if cp >= 0x80 {
      LeadAndSecondFit(cp);
      forall i | 2 <= i < |e| ensures IsContinuation(e[i]) {
      }
    }
    EncodingDecodes(cp);
    PrefixIsLocal(e, rest);
  }

  // RFC 3629 section 4, both ways: n > 0 exactly when n bytes at the front encode one scalar value.
  lemma PrefixLengthIsExact(s: Text, n: nat)
    requires s != [] && 0 < n <= |s|
    ensures PrefixLength(s) == n <==> exists cp: Scalar :: Encode(cp) == s[..n]
  {
    if PrefixLength(s) == n {
      AcceptedIsAnEncoding(s);
      assert Encode(Decode(s[..n])) == s[..n];
    }
    if exists cp: Scalar :: Encode(cp) == s[..n] {
      var cp: Scalar :| Encode(cp) == s[..n];
      EncodingIsAccepted(cp, s[n..]);
      assert s == s[..n] + s[n..];
    }
  }

  // What a lossy reader makes of any bytes: U+FFFD for each byte outside a well-formed sequence.
  function Scalars(s: Text): (cps: seq<Scalar>)
  {
    if s == [] then []
    else
      var n := PrefixLength(s);
      if n == 0 then [REPLACEMENT] + Scalars(s[1..])
      else
        AcceptedIsAnEncoding(s);
        [Decode(s[..n])] + Scalars(s[n..])
  }

  lemma ScalarsOfEncoded(cp: Scalar, rest: Text)
    ensures Scalars(Encode(cp) + rest) == [cp] + Scalars(rest)
  {
    EncodingIsAccepted(cp, rest);
    var s, n := Encode(cp) + rest, |Encode(cp)|;
    assert s[..n] == Encode(cp) && s[n..] == rest;
  }

  // Reading back encoded text loses nothing, so Scalars is the identity on well-formed text.
  lemma {:induction false} ScalarsRecoverEncoded(cps: seq<Scalar>)
    ensures Scalars(EncodeAll(cps)) == cps
  {
    if cps != [] {
      ScalarsOfEncoded(cps[0], EncodeAll(cps[1..]));
      ScalarsRecoverEncoded(cps[1..]);
    }
  }

  lemma EncodedHead(cps: seq<Scalar>)
    ensures EncodeAll(cps) == if cps == [] then [] else Encode(cps[0]) + EncodeAll(cps[1..])
  {
    hide Encode;
  }

  lemma {:induction false} EncodeAllConcat(a: seq<Scalar>, b: seq<Scalar>)
    ensures EncodeAll(a + b) == EncodeAll(a) + EncodeAll(b)
  {
    hide Encode, EncodeAll;
    EncodedHead(a);
    EncodedHead(a + b);
    if a == [] {
      assert a + b == b;
    } else {
      assert (a + b)[0] == a[0] && (a + b)[1..] == a[1..] + b;
      EncodeAllConcat(a[1..], b);
    }
  }
}

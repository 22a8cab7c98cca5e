// Base64 without padding over the URL alphabet (RFC 4648 section 5), with the bit accumulators of
// Base64.cpp.
module Base64 {
  import opened Machine
  import opened Bits

  // The symbol for six bits, and back: A-Z a-z 0-9 - _.
  function Symbol(v: nat): (b: Byte)
    requires v < 64
  {
    if v < 26 then 0x41 + v
    else if v < 52 then 0x61 + (v - 26)
    else if v < 62 then 0x30 + (v - 52)
    else if v == 62 then 0x2D
    else 0x5F
  }

  function SymbolValue(b: Byte): (v: Option<nat>)
    ensures v.Some? ==> v.value < 64
  {
    if 0x41 <= b <= 0x5A then Some(b - 0x41)
    else if 0x61 <= b <= 0x7A then Some(b - 0x61 + 26)
    else if 0x30 <= b <= 0x39 then Some(b - 0x30 + 52)
    else if b == 0x2D then Some(62)
    else if b == 0x5F then Some(63)
    else None
  }

  predicate IsSymbol(b: Byte) { SymbolValue(b).Some? }

  lemma SymbolsAreRead(v: nat)
    requires v < 64
    ensures SymbolValue(Symbol(v)) == Some(v)
  {
  }

  // ---------------------------------------------------------------------------------------------
  // What is encoded: `count` bits held back in `low`, then the bytes.

  predicate EncoderHolds(low: nat, count: nat)
  {
    (count == 0 && low == 0) || (count == 2 && low < 4) || (count == 4 && low < 16)
  }

  function EncodeFrom(bytes: Text, low: nat, count: nat): (s: Text)
    requires EncoderHolds(low, count)
  {
    if bytes == [] then
      if count == 0 then [] else if count == 2 then [Symbol(low * 16)] else [Symbol(low * 4)]
    else
      var b: int, rest := bytes[0], bytes[1..];
      if count == 0 then [Symbol(b / 4)] + EncodeFrom(rest, b % 4, 2)
      else if count == 2 then [Symbol(low * 16 + b / 16)] + EncodeFrom(rest, b % 16, 4)
      else [Symbol(low * 4 + b / 64), Symbol(b % 64)] + EncodeFrom(rest, 0, 0)
  }

  function Encode(bytes: Text): Text
  {
    EncodeFrom(bytes, 0, 0)
  }

  // What is decoded: `count` bits held back in `low`, then the symbols.
  predicate DecoderHolds(low: nat, count: nat)
  {
    (count == 0 && low == 0) || (count == 6 && low < 64) || (count == 4 && low < 16) || (count == 2 && low < 4)
  }

  function DecodeFrom(s: Text, low: nat, count: nat): Option<Text>
    requires DecoderHolds(low, count)
  {
    if s == [] then if low == 0 then Some([]) else None
    else match SymbolValue(s[0])
      case None => None
      case Some(v) =>
        if count == 0 then DecodeFrom(s[1..], v, 6)
        else if count == 6 then Emit(low * 4 + v / 16, DecodeFrom(s[1..], v % 16, 4))
        else if count == 4 then Emit(low * 16 + v / 4, DecodeFrom(s[1..], v % 4, 2))
        else Emit(low * 64 + v, DecodeFrom(s[1..], 0, 0))
  }

  function Emit(b: Byte, rest: Option<Text>): Option<Text>
  {
    match rest
    case Some(bytes) => Some([b] + bytes)
    case None => None
  }

  const PAD: Byte := 0x3D

  function PaddingLength(s: Text): (n: nat)
    ensures n <= |s|
  {
    if |s| >= 2 && s[|s| - 2] == PAD && s[|s| - 1] == PAD then 2
    else if |s| >= 1 && s[|s| - 1] == PAD then 1
    else 0
  }

  // The bits left over behind s: six for every symbol, less eight for every byte taken out.
  function LeftOver(length: nat): nat
  {
    length * 6 % 8
  }

  function Decode(s: Text): Option<Text>
  {
    if s == [] || |s| % 4 == 1 then None
    else
      var padding := PaddingLength(s);
      if padding != 0 && |s| % 4 != 0 then None
      else if (padding == 1 && LeftOver(|s| - 1) != 2) || (padding == 2 && LeftOver(|s| - 2) != 4) then None
      else DecodeFrom(s[..|s| - padding], 0, 0)
  }

  // ---------------------------------------------------------------------------------------------
  // The round trip.

  // The byte of which the encoder still holds the last `count` bits and the decoder the others.
  function Split(high: nat, low: nat, count: nat): nat
  {
    if count == 2 then high * 4 + low else high * 16 + low
  }

  lemma {:induction false} DecodeOfEncodeFrom(bytes: Text, high: nat, low: nat, count: nat)
    requires EncoderHolds(low, count) && DecoderHolds(high, if count == 0 then 0 else 8 - count)
    ensures DecodeFrom(EncodeFrom(bytes, low, count), high, if count == 0 then 0 else 8 - count)
            == Some(if count == 0 then bytes else [Split(high, low, count)] + bytes)
    decreases |bytes|
  {
    hide DecodeFrom, EncodeFrom, Symbol, SymbolValue;
    if bytes == [] {
      if count != 0 {
        LastSymbolIsRead(high, low, count);
        assert [Split(high, low, count)] + bytes == [Split(high, low, count)];
      } else {
        NothingIsRead(high);
      }
    } else {
      var b: int, rest := bytes[0], bytes[1..];
      assert bytes == [bytes[0]] + rest;
      NextIsRead(bytes, high, low, count);
      if count == 0 {
        DecodeOfEncodeFrom(rest, b / 4, b % 4, 2);
        assert b / 4 * 4 + b % 4 == b;
      } else if count == 2 {
        DecodeOfEncodeFrom(rest, b / 16, b % 16, 4);
        assert b / 16 * 16 + b % 16 == b;
      } else {
        DecodeOfEncodeFrom(rest, 0, 0, 0);
      }
    }
  }

  lemma NothingIsRead(high: nat)
    requires DecoderHolds(high, 0)
    ensures DecodeFrom(EncodeFrom([], 0, 0), high, 0) == Some([])
  {
  }

  // One turn of the decoder.
  lemma DecodedOnce(s: Text, low: nat, count: nat)
    requires s != [] && DecoderHolds(low, count)
    ensures SymbolValue(s[0]).None? ==> DecodeFrom(s, low, count) == None
    ensures SymbolValue(s[0]).Some? ==>
              var v := SymbolValue(s[0]).value;
              DecodeFrom(s, low, count) ==
                if count == 0 then DecodeFrom(s[1..], v, 6)
                else if count == 6 then Emit(low * 4 + v / 16, DecodeFrom(s[1..], v % 16, 4))
                else if count == 4 then Emit(low * 16 + v / 4, DecodeFrom(s[1..], v % 4, 2))
                else Emit(low * 64 + v, DecodeFrom(s[1..], 0, 0))
  {
    hide SymbolValue, Emit;
  }

  lemma BehindEmit(out: Text, b: Byte, rest: Option<Text>)
    ensures Behind(out, Emit(b, rest)) == Behind(out + [b], rest)
  {
    if rest.Some? {
      assert out + ([b] + rest.value) == out + [b] + rest.value;
    }
  }

  // What the decoder makes of a symbol.
  lemma ReadOn(v: nat, rest: Text, low: nat, count: nat)
    requires v < 64 && DecoderHolds(low, count)
    ensures DecodeFrom([Symbol(v)] + rest, low, count) ==
              if count == 0 then DecodeFrom(rest, v, 6)
              else if count == 6 then Emit(low * 4 + v / 16, DecodeFrom(rest, v % 16, 4))
              else if count == 4 then Emit(low * 16 + v / 4, DecodeFrom(rest, v % 4, 2))
              else Emit(low * 64 + v, DecodeFrom(rest, 0, 0))
  {
    SymbolsAreRead(v);
    hide Symbol, SymbolValue, Emit;
    assert ([Symbol(v)] + rest)[1..] == rest;
  }

  // What the encoder makes of a byte, said in its upper and lower bits.
  lemma EncodeFirst(bytes: Text, high: nat, low: nat)
    requires bytes != [] && low < 4 && high < 64 && bytes[0] == high * 4 + low
    ensures EncodeFrom(bytes, 0, 0) == [Symbol(high)] + EncodeFrom(bytes[1..], low, 2)
  {
    hide Symbol;
  }

  lemma EncodeSecond(bytes: Text, above: nat, high: nat, low: nat)
    requires bytes != [] && above < 4 && low < 16 && high < 16 && bytes[0] == high * 16 + low
    ensures EncodeFrom(bytes, above, 2) == [Symbol(above * 16 + high)] + EncodeFrom(bytes[1..], low, 4)
  {
    hide Symbol;
  }

  lemma EncodeThird(bytes: Text, above: nat, high: nat, low: nat)
    requires bytes != [] && above < 16 && low < 64 && high < 4 && bytes[0] == high * 64 + low
    ensures EncodeFrom(bytes, above, 4) == [Symbol(above * 4 + high), Symbol(low)] + EncodeFrom(bytes[1..], 0, 0)
  {
    hide Symbol;
  }

  // What the decoder makes of the symbols that the encoder puts out for one byte.
  lemma NextIsRead(bytes: Text, high: nat, low: nat, count: nat)
    requires bytes != [] && EncoderHolds(low, count) && DecoderHolds(high, if count == 0 then 0 else 8 - count)
    ensures var b: int, rest, s := bytes[0], bytes[1..], EncodeFrom(bytes, low, count);
            if count == 0 then DecodeFrom(s, high, 0) == DecodeFrom(EncodeFrom(rest, b % 4, 2), b / 4, 6)
            else if count == 2 then
              DecodeFrom(s, high, 6) == Emit(high * 4 + low, DecodeFrom(EncodeFrom(rest, b % 16, 4), b / 16, 4))
            else
              DecodeFrom(s, high, 4) == Emit(high * 16 + low, Emit(b, DecodeFrom(EncodeFrom(rest, 0, 0), 0, 0)))
  {
    hide Symbol, SymbolValue, EncodeFrom, DecodeFrom, Emit;
    var b: int, rest := bytes[0], bytes[1..];
    if count == 0 {
      EncodeFirst(bytes, b / 4, b % 4);
      ReadOn(b / 4, EncodeFrom(rest, b % 4, 2), high, 0);
    } else if count == 2 {
      EncodeSecond(bytes, low, b / 16, b % 16);
      ModUnique(low * 16 + b / 16, 16, low, b / 16);
      ReadOn(low * 16 + b / 16, EncodeFrom(rest, b % 16, 4), high, 6);
    } else {
      var t := EncodeFrom(rest, 0, 0);
      EncodeThird(bytes, low, b / 64, b % 64);
      ModUnique(low * 4 + b / 64, 4, low, b / 64);
      assert [Symbol(low * 4 + b / 64), Symbol(b % 64)] + t == [Symbol(low * 4 + b / 64)] + ([Symbol(b % 64)] + t);
      ReadOn(low * 4 + b / 64, [Symbol(b % 64)] + t, high, 4);
      ReadOn(b % 64, t, b / 64, 2);
      assert b / 64 * 64 + b % 64 == b;
    }
  }

  lemma LastSymbolIsRead(high: nat, low: nat, count: nat)
    requires EncoderHolds(low, count) && count > 0 && DecoderHolds(high, 8 - count)
    ensures DecodeFrom(EncodeFrom([], low, count), high, 8 - count) == Some([Split(high, low, count)])
  {
    hide Symbol, SymbolValue;
    var v := if count == 2 then low * 16 else low * 4;
    SymbolsAreRead(v);
    assert [Symbol(v)][1..] == [];
    assert count == 2 ==> v / 16 == low && v % 16 == 0;
    assert count == 4 ==> v / 4 == low && v % 4 == 0;
    assert DecodeFrom([], 0, 4) == Some([]) && DecodeFrom([], 0, 2) == Some([]);
    assert [Split(high, low, count) as Byte] + [] == [Split(high, low, count)];
  }

  lemma {:induction false} EncodedLength(bytes: Text, low: nat, count: nat)
    requires EncoderHolds(low, count)
    ensures 6 * |EncodeFrom(bytes, low, count)| >= 8 * |bytes| + count
    ensures 6 * |EncodeFrom(bytes, low, count)| <= 8 * |bytes| + count + 4
    ensures forall i | 0 <= i < |EncodeFrom(bytes, low, count)| :: IsSymbol(EncodeFrom(bytes, low, count)[i])
    decreases |bytes|
  {
    if bytes != [] {
      var b: int := bytes[0];
      if count == 0 {
        EncodedLength(bytes[1..], b % 4, 2);
      } else if count == 2 {
        EncodedLength(bytes[1..], b % 16, 4);
      } else {
        EncodedLength(bytes[1..], 0, 0);
      }
    }
  }

  // Decoding gives back what was encoded, for every byte string but the empty one, whose encoding
  // the decoder refuses.
  lemma RoundTripIff(bytes: Text)
    ensures Decode(Encode(bytes)) == Some(bytes) <==> bytes != []
  {
    hide EncodeFrom, DecodeFrom;
    var s := Encode(bytes);
    EncodedLength(bytes, 0, 0);
    DecodeOfEncodeFrom(bytes, 0, 0, 0);
    if bytes != [] {
      assert s != [] && |s| % 4 != 1;
      assert forall i | 0 <= i < |s| :: s[i] != PAD by {
        forall i | 0 <= i < |s| ensures s[i] != PAD { assert IsSymbol(s[i]); }
      }
      assert s[..|s|] == s;
    }
  }

  // The padding that makes up groups of four.
  function Padding(bytes: Text): Text
  {
    if |bytes| % 3 == 1 then [0x3D, 0x3D] else if |bytes| % 3 == 2 then [0x3D] else []
  }

  lemma EncodedGroups(n: nat, length: nat)
    requires n > 0 && 8 * n <= 6 * length <= 8 * n + 4
    ensures length % 4 == (if n % 3 == 1 then 2 else if n % 3 == 2 then 3 else 0) && length > 0
  {
    var q := n / 3;
    assert n == 3 * q + n % 3;
    assert length == 4 * q + if n % 3 == 1 then 2 else if n % 3 == 2 then 3 else 0;
  }

  // Decoding takes the padded form as well.
  lemma PaddedRoundTrip(bytes: Text)
    requires bytes != []
    ensures Decode(Encode(bytes) + Padding(bytes)) == Some(bytes)
  {
    hide EncodeFrom, DecodeFrom, IsSymbol, Symbol, SymbolValue, LeftOver;
    var s, padding := Encode(bytes), Padding(bytes);
    EncodedLength(bytes, 0, 0);
    EncodedGroups(|bytes|, |s|);
    DecodeOfEncodeFrom(bytes, 0, 0, 0);
    PaddingIsCutOff(s, padding);
  }

  lemma PaddingIsCutOff(s: Text, padding: Text)
    requires s != [] && forall i | 0 <= i < |s| :: IsSymbol(s[i])
    requires padding == if |s| % 4 == 2 then [PAD, PAD] else if |s| % 4 == 3 then [PAD] else []
    requires |s| % 4 != 1
    ensures Decode(s + padding) == DecodeFrom(s, 0, 0)
  {
    hide DecodeFrom, IsSymbol;
    PaddingIsNoSymbol();
    var all := s + padding;
    assert IsSymbol(s[|s| - 1]) && all[..|s|] == s;
    assert PaddingLength(all) == |padding|;
    LeftOverBits(|s|);
  }

  lemma LeftOverBits(length: nat)
    ensures length % 4 == 3 ==> LeftOver(length) == 2
    ensures length % 4 == 2 ==> LeftOver(length) == 4
  {
    var q, r := length / 4, length % 4;
    assert length * 6 == 24 * q + 6 * r;
    if r == 3 { ModUnique(length * 6, 8, 3 * q + 2, 2); }
    if r == 2 { ModUnique(length * 6, 8, 3 * q + 1, 4); }
  }

  lemma PaddingIsNoSymbol()
    ensures !IsSymbol(PAD)
  {
  }

  // ---------------------------------------------------------------------------------------------
  // Decoding is canonical: it accepts nothing but what the encoder puts out, padded or not.

  lemma ReadSymbol(b: Byte)
    ensures SymbolValue(b).Some? ==> Symbol(SymbolValue(b).value) == b
  {
  }

  // The place of the next symbol in its group of four when `count` bits are held back.
  function Place(count: nat): nat
  {
    if count == 0 then 0 else if count == 6 then 1 else if count == 4 then 2 else 3
  }

  // The symbol that the decoder has read last, whose upper bits are already part of a byte.
  function LastRead(above: nat, low: nat, count: nat): nat
  {
    if count == 6 then low else if count == 4 then above * 16 + low else above * 4 + low
  }

  // The bits of a byte that it has read without that symbol: none, two or four.
  predicate Above(above: nat, count: nat)
  {
    if count == 4 then above < 4 else if count == 2 then above < 16 else above == 0
  }

  // What the encoder makes of the bytes, the bits above included.
  function EncodedAgain(bytes: Text, above: nat, count: nat): Text
    requires Above(above, count)
  {
    EncodeFrom(bytes, above, if count == 4 then 2 else if count == 2 then 4 else 0)
  }

  // The text that is still to come, behind the symbol read last.
  function Pending(s: Text, above: nat, low: nat, count: nat): Text
    requires DecoderHolds(low, count) && Above(above, count)
  {
    if count == 0 then s else [Symbol(LastRead(above, low, count))] + s
  }

  lemma {:induction false} DecodedIsEncodedAgain(s: Text, above: nat, low: nat, count: nat)
    requires DecoderHolds(low, count) && Above(above, count) && (|s| + Place(count)) % 4 != 1
    requires DecodeFrom(s, low, count).Some?
    ensures EncodedAgain(DecodeFrom(s, low, count).value, above, count) == Pending(s, above, low, count)
    decreases |s|
  {
    hide EncodeFrom, DecodeFrom, Symbol, SymbolValue, Pending;
    if s == [] {
      NothingDecoded(above, low, count);
    } else {
      DecodedOnce(s, low, count);
      var v := SymbolValue(s[0]).value;
      ReadSymbol(s[0]);
      if count == 0 {
        DecodedIsEncodedAgain(s[1..], 0, v, 6);
      } else if count == 6 {
        DecodedIsEncodedAgain(s[1..], v / 16, v % 16, 4);
      } else if count == 4 {
        DecodedIsEncodedAgain(s[1..], v / 4, v % 4, 2);
      } else {
        DecodedIsEncodedAgain(s[1..], 0, 0, 0);
      }
      EncodedOnce(s, above, low, count);
    }
  }

  lemma NothingDecoded(above: nat, low: nat, count: nat)
    requires DecoderHolds(low, count) && Above(above, count) && count != 6
    requires DecodeFrom([], low, count).Some?
    ensures EncodedAgain(DecodeFrom([], low, count).value, above, count) == Pending([], above, low, count)
  {
    hide Symbol;
  }

  // One turn of the encoder, from what the turn behind it is known to give.
  lemma EncodedOnce(s: Text, above: nat, low: nat, count: nat)
    requires s != [] && DecoderHolds(low, count) && Above(above, count) && DecodeFrom(s, low, count).Some?
    requires SymbolValue(s[0]).Some? && Symbol(SymbolValue(s[0]).value) == s[0]
    requires var v, out, rest := SymbolValue(s[0]).value, DecodeFrom(s, low, count).value, s[1..];
             if count == 0 then EncodeFrom(out, 0, 0) == Pending(rest, 0, v, 6)
             else out != [] && var more, b: int := out[1..], out[0];
               if count == 6 then
                 b == low * 4 + v / 16 && EncodedAgain(more, v / 16, 4) == Pending(rest, v / 16, v % 16, 4)
               else if count == 4 then
                 b == low * 16 + v / 4 && EncodedAgain(more, v / 4, 2) == Pending(rest, v / 4, v % 4, 2)
               else b == low * 64 + v && EncodedAgain(more, 0, 0) == Pending(rest, 0, 0, 0)
    ensures EncodedAgain(DecodeFrom(s, low, count).value, above, count) == Pending(s, above, low, count)
  {
    hide DecodeFrom, EncodeFrom, Symbol, SymbolValue;
    var v, out, rest := SymbolValue(s[0]).value, DecodeFrom(s, low, count).value, s[1..];
    assert s == [s[0]] + rest;
    if count == 6 {
      EncodeFirst(out, low, v / 16);
      DivMod(v, 16);
    } else if count == 4 {
      EncodeSecond(out, above, low, v / 4);
      DivMod(v, 4);
    } else if count == 2 {
      EncodeThird(out, above, low, v);
      assert [Symbol(above * 4 + low)] + s == [Symbol(above * 4 + low), Symbol(v)] + rest;
    }
  }

  // What is decoded, encoded again, is the text without its padding.
  lemma DecodingIsCanonical(s: Text)
    requires Decode(s).Some?
    ensures Encode(Decode(s).value) == s[..|s| - PaddingLength(s)]
  {
    hide EncodeFrom, DecodeFrom;
    DecodedIsEncodedAgain(s[..|s| - PaddingLength(s)], 0, 0, 0);
  }

  // ---------------------------------------------------------------------------------------------
  // The loops, which keep stale bits above the ones that count and let them fall off the top.

  // The bits that count.
  function Low(bits: int, count: nat): (low: nat)
    ensures low < Pow2(count)
  {
    bits % Pow2(count)
  }

  lemma ModUnique(x: int, m: int, q: int, r: int)
    requires m > 0 && x == q * m + r && 0 <= r < m
    ensures x / m == q && x % m == r
  {
    var d := x / m - q;
    assert d * m == r - x % m;
    if d >= 1 { Scaled(1, d, m); }
    if d <= -1 { Scaled(d, -1, m); }
  }

  lemma Distribute(q: int, m: int, r: int, w: int)
    ensures (q * m + r) * w == q * (m * w) + r * w
  {
  }

  lemma DigitsFit(r: int, m: int, b: int, w: int)
    requires 0 <= r < m && 0 <= b < w
    ensures 0 <= r * w + b < m * w
  {
    Scaled(0, r, w);
    Scaled(r + 1, m, w);
  }

  lemma QuotientFits(x: int, m: int, w: int)
    requires m > 0 && 0 <= x < w * m
    ensures 0 <= x / m < w
  {
    var y, z := x / m, x % m;
    assert x == y * m + z;
    if y >= w { Scaled(w, y, m); }
    if y <= -1 { Scaled(y, -1, m); }
  }

  // The low digit, and the digit above it, with and without what lies further up.
  lemma ModOfMod(x: int, k: int, m: int)
    requires k > 0 && m > 0 && k * m > 0
    ensures x % (k * m) % m == x % m
    ensures x / m % k == x % (k * m) / m
  {
    var q, r := x / (k * m), x % (k * m);
    var y, z := r / m, r % m;
    assert x == q * (k * m) + r && r == y * m + z;
    Distribute(q, k, y, m);
    ModUnique(x, m, q * k + y, z);
    QuotientFits(r, m, k);
    ModUnique(x / m, k, q, y);
  }

  lemma {:induction false} Pow2Sum(a: nat, b: nat)
    ensures Pow2(a + b) == Pow2(a) * Pow2(b)
  {
    if a > 0 {
      Pow2Sum(a - 1, b);
      assert Pow2(a) * Pow2(b) == 2 * (Pow2(a - 1) * Pow2(b));
    }
  }

  // Dropping to fewer bits in two steps or in one.
  lemma LowOfLow(bits: int, count: nat, more: nat)
    ensures Low(Low(bits, count + more), count) == Low(bits, count)
  {
    Pow2Sum(more, count);
    ModOfMod(bits, Pow2(more), Pow2(count));
  }

  // New bits come in at the bottom.
  lemma LowAfterShift(bits: int, count: nat, width: nat, b: nat)
    requires b < Pow2(width)
    ensures Low(bits * Pow2(width) + b, count + width) == Low(bits, count) * Pow2(width) + b
  {
    Pow2Sum(count, width);
    ShiftIn(bits, Pow2(count), Pow2(width), b);
  }

  lemma ShiftIn(x: int, m: int, w: int, b: int)
    requires m > 0 && w > 0 && m * w > 0 && 0 <= b < w
    ensures (x * w + b) % (m * w) == x % m * w + b
  {
    var q, low := x / m, x % m;
    assert x == q * m + low;
    Distribute(q, m, low, w);
    DigitsFit(low, m, b, w);
    ModUnique(x * w + b, m * w, q, low * w + b);
  }

  // The topmost bits that count, read off past the stale ones.
  lemma TopBits(bits: int, count: nat, width: nat)
    ensures bits / Pow2(count) % Pow2(width) == Low(bits, count + width) / Pow2(count)
  {
    Pow2Sum(width, count);
    ModOfMod(bits, Pow2(width), Pow2(count));
  }

  lemma SmallPowers()
    ensures Pow2(0) == 1 && Pow2(1) == 2 && Pow2(2) == 4 && Pow2(4) == 16 && Pow2(6) == 64 && Pow2(8) == 256
    ensures Pow2(10) == 1024 && Pow2(12) == 4096
  {
    assert Pow2(3) == 8 && Pow2(5) == 32 && Pow2(7) == 128 && Pow2(9) == 512 && Pow2(11) == 2048;
  }

  // Wrapping at 32 bits touches only stale bits.
  lemma WrapIsStale(x: int, count: nat)
    requires count <= 32
    ensures Low(U32(x), count) == Low(x, count)
  {
    SmallPowers();
    Pow2Sum(8, 8);
    Pow2Sum(16, 16);
    assert U32(x) == Low(x, count + (32 - count));
    LowOfLow(x, count, 32 - count);
  }

  // The encoder with up to 12 bits to hand: what it will append in the end.
  function Drain(bytes: Text, low: nat, count: nat): Text
    requires count % 2 == 0 && count <= 12 && low < Pow2(count)
  {
    SmallPowers();
    if count >= 6 then
      TopSixFit(low, count);
      [Symbol(low / Pow2(count - 6))] + Drain(bytes, low % Pow2(count - 6), count - 6)
    else EncodeFrom(bytes, low, count)
  }

  lemma TopSixFit(low: nat, count: nat)
    requires count >= 6 && low < Pow2(count)
    ensures low / Pow2(count - 6) < 64
  {
    SmallPowers();
    Pow2Sum(6, count - 6);
    QuotientFits(low, Pow2(count - 6), 64);
  }

  lemma DrainOnce(bytes: Text, high: nat, low: nat, count: nat)
    requires 6 <= count <= 12 && count % 2 == 0 && high < 64 && low < Pow2(count - 6)
    requires high * Pow2(count - 6) + low < Pow2(count)
    ensures Drain(bytes, high * Pow2(count - 6) + low, count) == [Symbol(high)] + Drain(bytes, low, count - 6)
  {
    hide Symbol, Pow2;
    ModUnique(high * Pow2(count - 6) + low, Pow2(count - 6), high, low);
  }

  lemma ByteIsDrained(bytes: Text, low: nat, count: nat)
    requires bytes != [] && EncoderHolds(low, count)
    ensures low * 256 + bytes[0] < Pow2(count + 8)
    ensures EncodeFrom(bytes, low, count) == Drain(bytes[1..], low * 256 + bytes[0], count + 8)
  {
    SmallPowers();
    hide Symbol, Pow2, Drain, EncodeFrom;
    var b: int, rest := bytes[0], bytes[1..];
    if count == 0 {
      EncodeFirst(bytes, b / 4, b % 4);
      DrainOnce(rest, b / 4, b % 4, 8);
      Drained(rest, b % 4, 2);
    } else if count == 2 {
      EncodeSecond(bytes, low, b / 16, b % 16);
      DrainOnce(rest, low * 16 + b / 16, b % 16, 10);
      Drained(rest, b % 16, 4);
    } else {
      var t := Drain(rest, 0, 0);
      EncodeThird(bytes, low, b / 64, b % 64);
      DrainOnce(rest, low * 4 + b / 64, b % 64, 12);
      DrainOnce(rest, b % 64, 0, 6);
      Drained(rest, 0, 0);
      assert [Symbol(low * 4 + b / 64)] + ([Symbol(b % 64)] + t) == [Symbol(low * 4 + b / 64), Symbol(b % 64)] + t;
    }
  }

  // One byte pushed into the accumulator, as the loop computes it.
  lemma ByteStep(bytes: Text, i: nat, bits: Word32, count: nat)
    requires i < |bytes| && EncoderHolds(Low(bits, count), count)
    ensures count <= 4 && count % 2 == 0
    ensures EncodeFrom(bytes[i..], Low(bits, count), count)
            == Drain(bytes[i + 1..], Low(U32(bits * 256 + bytes[i]), count + 8), count + 8)
  {
    hide Symbol, EncodeFrom, Drain, Low, Pow2;
    SmallPowers();
    assert bytes[i..][0] == bytes[i] && bytes[i..][1..] == bytes[i + 1..];
    ByteIsDrained(bytes[i..], Low(bits, count), count);
    LowAfterShift(bits, count, 8, bytes[i]);
    WrapIsStale(bits * 256 + bytes[i], count + 8);
  }

  method EncodeBase64(bytes: Text) returns (out: Text)
    ensures out == Encode(bytes)
  {
    hide Symbol, EncodeFrom, Drain, Low, Pow2, U32;
    out := [];
    var bits: Word32 := 0;
    var count: nat := 0;
    var i := 0;
    SmallPowers();
    assert bytes[0..] == bytes;
    while i < |bytes|
      invariant 0 <= i <= |bytes|
      invariant EncoderHolds(Low(bits, count), count)
      invariant out + EncodeFrom(bytes[i..], Low(bits, count), count) == Encode(bytes)
    {
      ByteStep(bytes, i, bits, count);
      bits := U32(bits * 256 + bytes[i]);
      count := count + 8;
      while count >= 6
        invariant count <= 12 && count % 2 == 0
        invariant out + Drain(bytes[i + 1..], Low(bits, count), count) == Encode(bytes)
      {
        DrainStep(bytes[i + 1..], bits, count, out);
        count := count - 6;
        out := out + [Symbol(bits / Pow2(count) % 64)];
      }
      Drained(bytes[i + 1..], Low(bits, count), count);
      i := i + 1;
    }
    assert bytes[i..] == [];
    LastSymbol(bits, count);
    if count != 0 {
      out := out + [Symbol(bits * Pow2(6 - count) % 64)];
    }
  }

  lemma DivMod(a: int, m: int)
    requires m > 0
    ensures a == a / m * m + a % m
  {
  }

  lemma LowSplits(bits: int, count: nat)
    requires count >= 6
    ensures var m := Pow2(count - 6);
            Low(bits, count) == bits / m % 64 * m + Low(bits, count - 6)
  {
    SmallPowers();
    TopBits(bits, count - 6, 6);
    LowOfLow(bits, count - 6, 6);
    hide Low, Pow2;
    var all, m := Low(bits, count), Pow2(count - 6);
    LowIsMod(all, count - 6);
    DivMod(all, m);
  }

  lemma DrainStep(rest: Text, bits: Word32, count: nat, out: Text)
    requires 6 <= count <= 12 && count % 2 == 0
    ensures out + Drain(rest, Low(bits, count), count)
            == out + [Symbol(bits / Pow2(count - 6) % 64)] + Drain(rest, Low(bits, count - 6), count - 6)
  {
    SmallPowers();
    hide Symbol, Pow2, Low, Drain;
    var high, low := bits / Pow2(count - 6) % 64, Low(bits, count - 6);
    LowSplits(bits, count);
    DrainOnce(rest, high, low, count);
    assert out + ([Symbol(high)] + Drain(rest, low, count - 6)) == out + [Symbol(high)] + Drain(rest, low, count - 6);
  }

  lemma Drained(rest: Text, low: nat, count: nat)
    requires count < 6 && count % 2 == 0 && low < Pow2(count)
    ensures EncoderHolds(low, count) && Drain(rest, low, count) == EncodeFrom(rest, low, count)
  {
    SmallPowers();
  }

  lemma LastSymbol(bits: Word32, count: nat)
    requires EncoderHolds(Low(bits, count), count)
    ensures EncodeFrom([], Low(bits, count), count)
            == if count == 0 then [] else [Symbol(bits * Pow2(6 - count) % 64)]
  {
    SmallPowers();
    if count > 0 {
      LowAfterShift(bits, count, 6 - count, 0);
    }
  }

  method DecodeBase64(text: Text) returns (r: Option<Text>)
    ensures r == Decode(text)
  {
    if text == [] || |text| % 4 == 1 {
      return None;
    }
    var padding := PaddingLength(text);
    if padding != 0 && |text| % 4 != 0 {
      return None;
    }
    var length := |text| - padding;
    var ok, out, count := DecodeSymbols(text[..length]);
    var paddingMismatch := (padding == 1 && count != 2) || (padding == 2 && count != 4);
    if !ok || paddingMismatch {
      return None;
    }
    return Some(out);
  }

  // The loop of DecodeBase64, with the check of the bits left over.
  method DecodeSymbols(symbols: Text) returns (ok: bool, out: Text, count: nat)
    ensures (if ok then Some(out) else None) == DecodeFrom(symbols, 0, 0)
    ensures ok ==> count == LeftOver(|symbols|)
  {
    hide SymbolValue, DecodeFrom, Low, Pow2, LeftOver, U32;
    out := [];
    count := 0;
    var bits: Word32 := 0;
    var i := 0;
    SmallPowers();
    assert symbols[0..] == symbols;
    NothingBehind(DecodeFrom(symbols, 0, 0));
    LeftOverStep(0);
    while i < |symbols|
      invariant 0 <= i <= |symbols|
      invariant DecoderHolds(Low(bits, count), count) && count == LeftOver(i)
      invariant Behind(out, DecodeFrom(symbols[i..], Low(bits, count), count)) == DecodeFrom(symbols, 0, 0)
    {
      assert symbols[i..][0] == symbols[i] && symbols[i..][1..] == symbols[i + 1..];
      var value := SymbolValue(symbols[i]);
      DecodeStep(symbols[i..], bits, count, out);
      if value.None? {
        return false, [], 0;
      }
      LeftOverStep(i);
      bits := U32(bits * 64 + value.value);
      count := count + 6;
      if count >= 8 {
        count := count - 8;
        out := out + [bits / Pow2(count) % 256];
      }
      i := i + 1;
    }
    assert symbols[i..] == [] && out + [] == out;
    AtTheEnd(bits, count);
    ok := !(count != 0 && bits % Pow2(count) != 0);
  }

  lemma AtTheEnd(bits: Word32, count: nat)
    requires DecoderHolds(Low(bits, count), count)
    ensures DecodeFrom([], Low(bits, count), count) == if count != 0 && bits % Pow2(count) != 0 then None else Some([])
  {
  }

  lemma LeftOverStep(i: nat)
    ensures LeftOver(0) == 0
    ensures LeftOver(i + 1) == if LeftOver(i) + 6 >= 8 then LeftOver(i) - 2 else LeftOver(i) + 6
  {
    var q, r := i * 6 / 8, i * 6 % 8;
    assert (i + 1) * 6 == i * 6 + 6;
    if r + 6 >= 8 {
      ModUnique((i + 1) * 6, 8, q + 1, r - 2);
    } else {
      ModUnique((i + 1) * 6, 8, q, r + 6);
    }
  }

  lemma NothingBehind(rest: Option<Text>)
    ensures Behind([], rest) == rest
  {
    assert rest.Some? ==> [] + rest.value == rest.value;
  }

  // One turn of the decoder, with the bits it then holds written as the loop computes them.
  lemma DecodeStep(s: Text, bits: Word32, count: nat, out: Text)
    requires s != [] && DecoderHolds(Low(bits, count), count)
    ensures SymbolValue(s[0]).None? ==> DecodeFrom(s, Low(bits, count), count) == None
    ensures SymbolValue(s[0]).Some? ==>
              var next, now := U32(bits * 64 + SymbolValue(s[0]).value), DecodeFrom(s, Low(bits, count), count);
              if count + 6 >= 8 then
                && DecoderHolds(Low(next, count - 2), count - 2)
                && Behind(out, now)
                   == Behind(out + [next / Pow2(count - 2) % 256], DecodeFrom(s[1..], Low(next, count - 2), count - 2))
              else
                && DecoderHolds(Low(next, count + 6), count + 6)
                && now == DecodeFrom(s[1..], Low(next, count + 6), count + 6)
  {
    hide SymbolValue, DecodeFrom, Low, Pow2, U32;
    if SymbolValue(s[0]).Some? {
      var v := SymbolValue(s[0]).value;
      SmallPowers();
      LowAfterShift(bits, count, 6, v);
      WrapIsStale(bits * 64 + v, count + 6);
      if count > 0 {
        TopBits(U32(bits * 64 + v), count - 2, 8);
        LowOfLow(U32(bits * 64 + v), count - 2, 8);
        LowIsMod(Low(U32(bits * 64 + v), count + 6), count - 2);
      }
    }
    DecodeTurn(s, Low(bits, count), count, out);
  }

  lemma LowIsMod(x: int, count: nat)
    ensures Low(x, count) == x % Pow2(count)
  {
  }

  // The byte that is complete and the bits that are left over, when a symbol comes in.
  lemma TurnNumbers(low: nat, v: nat, count: nat)
    requires DecoderHolds(low, count) && v < 64 && count > 0
    ensures var x, m := low * 64 + v, Pow2(count - 2);
            && x / m == (if count == 6 then low * 4 + v / 16 else if count == 4 then low * 16 + v / 4 else x)
            && x % m == (if count == 6 then v % 16 else if count == 4 then v % 4 else 0)
            && x / m < 256
  {
    SmallPowers();
    hide Pow2;
    if count == 6 {
      ModUnique(low * 64 + v, 16, low * 4 + v / 16, v % 16);
    } else if count == 4 {
      ModUnique(low * 64 + v, 4, low * 16 + v / 4, v % 4);
    }
  }

  lemma DecodeTurn(s: Text, low: nat, count: nat, out: Text)
    requires s != [] && DecoderHolds(low, count)
    ensures SymbolValue(s[0]).None? ==> DecodeFrom(s, low, count) == None
    ensures SymbolValue(s[0]).Some? ==>
              var x := low * 64 + SymbolValue(s[0]).value;
              if count + 6 >= 8 then
                var m := Pow2(count - 2);
                && x / m < 256 && DecoderHolds(x % m, count - 2)
                && Behind(out, DecodeFrom(s, low, count))
                   == Behind(out + [x / m], DecodeFrom(s[1..], x % m, count - 2))
              else DecoderHolds(x, 6) && DecodeFrom(s, low, count) == DecodeFrom(s[1..], x, 6)
  {
    hide SymbolValue, Pow2, Emit;
    SmallPowers();
    DecodedOnce(s, low, count);
    if SymbolValue(s[0]).Some? && count > 0 {
      var v := SymbolValue(s[0]).value;
      var x, m := low * 64 + v, Pow2(count - 2);
      TurnNumbers(low, v, count);
      assert DecodeFrom(s, low, count) == Emit(x / m, DecodeFrom(s[1..], x % m, count - 2));
      BehindEmit(out, x / m, DecodeFrom(s[1..], x % m, count - 2));
    }
  }

  // The alphabet, and which bits come first.
  lemma KnownEncodings()
    ensures Encode([0x4D, 0x61, 0x6E]) == [0x54, 0x57, 0x46, 0x75]
    ensures Encode([0xFB, 0xFF]) == [0x2D, 0x5F, 0x38]
    ensures Encode([0x00]) == [0x41, 0x41] && Encode([0xD3, 0x5D]) == [0x30, 0x31, 0x30]
  {
    EncodeFirst([0x4D, 0x61, 0x6E], 19, 1);
    EncodeSecond([0x61, 0x6E], 1, 6, 1);
    EncodeThird([0x6E], 1, 1, 46);
    EncodeFirst([0xFB, 0xFF], 62, 3);
    EncodeSecond([0xFF], 3, 15, 15);
    EncodeFirst([0x00], 0, 0);
    EncodeFirst([0xD3, 0x5D], 52, 3);
    EncodeSecond([0x5D], 3, 5, 13);
    assert [0x4D, 0x61, 0x6E][1..] == [0x61, 0x6E] && [0x61, 0x6E][1..] == [0x6E];
  }
}

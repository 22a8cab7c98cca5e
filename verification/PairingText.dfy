// The text file of pairing tokens: one line per token, its symbols, a space and its expiry.
module PairingText {
  import opened Machine
  import opened Decimal
  import opened Pairing
  import Base64

  const NEWLINE: Byte := 0x0A
  const RETURN: Byte := 0x0D
  const SPACE: Byte := 0x20

  // The first place of b in s from i on, or |s|.
  function IndexOf(s: Text, b: Byte): (k: nat)
    ensures k <= |s|
    ensures k < |s| ==> s[k] == b
    ensures forall j | 0 <= j < k :: s[j] != b
  {
    if s == [] || s[0] == b then 0 else 1 + IndexOf(s[1..], b)
  }

  // ParseUnixTime: up to 19 digits that fit int64_t.
  function ReadTime(s: Text): (r: Option<Int64>)
    ensures r.Some? ==> r.value >= 0
  {
    if s == [] || |s| > 19 || !DigitsOnly(s) then None
    else if Value(s) < TWO63 then Some(Value(s)) else None
  }

  predicate DigitsOnly(s: Text)
    ensures DigitsOnly(s) <==> AllDigits(s)
  {
    forall i | 0 <= i < |s| :: IsDigit(s[i])
  }

  lemma {:induction false} PrefixIsNoGreater(s: Text, i: nat)
    requires i <= |s| && AllDigits(s)
    ensures Value(s[..i]) <= Value(s)
    decreases |s| - i
  {
    if i < |s| {
      PrefixIsNoGreater(s, i + 1);
      assert s[..i + 1][..i] == s[..i];
    } else {
      assert s[..i] == s;
    }
  }

  method ParseUnixTime(s: Text) returns (r: Option<Int64>)
    ensures r == ReadTime(s)
  {
    if s == [] || |s| > 19 {
      return None;
    }
    var v: Int64 := 0;
    var i := 0;
    while i < |s|
      invariant 0 <= i <= |s| && AllDigits(s[..i])
      invariant v == Value(s[..i])
    {
      if !IsDigit(s[i]) {
        return None;
      }
      var digit: int := s[i] - ZERO;
      assert s[..i + 1][..i] == s[..i];
      if v as int > (TWO63 - 1 - digit) / 10 {
        if DigitsOnly(s) {
          PrefixIsNoGreater(s, i + 1);
        }
        return None;
      }
      v := v * 10 + digit;
      i := i + 1;
    }
    assert s[..i] == s;
    return Some(v);
  }

  // ---------------------------------------------------------------------------------------------
  // Reading.

  datatype Line = Blank | Bad | Entry(issued: Issued)

  function WithoutReturn(s: Text): Text
  {
    if s != [] && s[|s| - 1] == RETURN then s[..|s| - 1] else s
  }

  function ReadLine(raw: Text): Line
  {
    var line := WithoutReturn(raw);
    if line == [] then Blank
    else if |line| > MAX_LINE_BYTES then Bad
    else
      var k := IndexOf(line, SPACE);
      if k == |line| then Bad
      else match (Base64.Decode(line[..k]), ReadTime(line[k + 1..]))
        case (Some(bytes), Some(expires)) => if |bytes| == TOKEN_BYTES then Entry(Issued(bytes, expires)) else Bad
        case _ => Bad
  }

  // What a line makes of a store, or None where it spoils the file.
  function Taken(line: Line, s: Store, now: Int64): Option<Store>
  {
    match line
    case Blank => Some(s)
    case Bad => None
    case Entry(x) => if x.expires <= now then Some(s) else WithToken(s, x.token, x.expires, now)
  }

  // The tokens of the lines of text added to a store, or None at a line that is no good.
  function ReadLines(text: Text, s: Store, now: Int64): Option<Store>
    decreases |text|
  {
    if text == [] then Some(s)
    else
      var end := IndexOf(text, NEWLINE);
      var rest := if end == |text| then [] else text[end + 1..];
      match Taken(ReadLine(text[..end]), s, now)
      case Some(next) => ReadLines(rest, next, now)
      case None => None
  }

  function Parsed(text: Text, now: Int64): Option<Store>
  {
    if |text| > MAX_FILE_BYTES then None else ReadLines(text, [], now)
  }

  method ParseLine(raw: Text) returns (line: Line)
    ensures line == ReadLine(raw)
  {
    var kept := WithoutReturn(raw);
    if kept == [] {
      return Blank;
    }
    if |kept| > MAX_LINE_BYTES {
      return Bad;
    }
    var space := IndexOf(kept, SPACE);
    if space == |kept| {
      return Bad;
    }
    var bytes := Base64.DecodeBase64(kept[..space]);
    var expires := ParseUnixTime(kept[space + 1..]);
    if bytes.None? || |bytes.value| != TOKEN_BYTES || expires.None? {
      return Bad;
    }
    return Entry(Issued(bytes.value, expires.value));
  }

  // What the loop over the lines does with one of them.
  method TakeUp(tokens: PairingTokens, line: Line, now: Int64) returns (good: bool)
    modifies tokens
    ensures good == Taken(line, old(tokens.tokens), now).Some?
    ensures good ==> tokens.tokens == Taken(line, old(tokens.tokens), now).value
  {
    match line
    case Blank =>
      return true;
    case Bad =>
      return false;
    case Entry(x) =>
      if x.expires <= now {
        return true;
      }
      good := tokens.Issue(x.token, x.expires, now);
  }

  // The text from a position on, which may lie just behind the end.
  function From(text: Text, pos: nat): Text
  {
    if pos >= |text| then [] else text[pos..]
  }

  // The line that starts at a position, and where the one behind it starts.
  function LineAt(text: Text, pos: nat): Text
    requires pos < |text|
  {
    text[pos..pos + IndexOf(text[pos..], NEWLINE)]
  }

  function NextLine(text: Text, pos: nat): (next: nat)
    requires pos < |text|
    ensures pos < next <= |text| + 1
  {
    pos + IndexOf(text[pos..], NEWLINE) + 1
  }

  // One turn of the loop over the lines.
  lemma LineTurn(text: Text, pos: nat, s: Store, now: Int64)
    requires pos < |text|
    ensures ReadLines(From(text, pos), s, now) ==
              match Taken(ReadLine(LineAt(text, pos)), s, now)
              case Some(next) => ReadLines(From(text, NextLine(text, pos)), next, now)
              case None => None
  {
    hide ReadLine, Taken, IndexOf;
    var tail := text[pos..];
    var k := IndexOf(tail, NEWLINE);
    assert tail[..k] == LineAt(text, pos);
    var rest := if k == |tail| then [] else tail[k + 1..];
    assert rest == From(text, NextLine(text, pos));
  }

  method ParsePairingTokens(text: Text, now: Int64) returns (r: Option<Store>)
    ensures r == Parsed(text, now)
  {
    if |text| > MAX_FILE_BYTES {
      return None;
    }
    hide ReadLines, ReadLine, Taken, IndexOf, From, LineAt, NextLine;
    FromTheStart(text);
    var tokens := new PairingTokens();
    var pos := 0;
    while pos < |text|
      invariant 0 <= pos && fresh(tokens)
      invariant ReadLines(From(text, pos), tokens.tokens, now) == ReadLines(text, [], now)
    {
      LineTurn(text, pos, tokens.tokens, now);
      var line := ParseLine(LineAt(text, pos));
      pos := NextLine(text, pos);
      var good := TakeUp(tokens, line, now);
      if !good {
        return None;
      }
    }
    AllLinesRead(text, pos, tokens.tokens, now);
    return Some(tokens.tokens);
  }

  lemma FromTheStart(text: Text)
    ensures From(text, 0) == text
  {
  }

  lemma AllLinesRead(text: Text, pos: nat, s: Store, now: Int64)
    requires pos >= |text|
    ensures ReadLines(From(text, pos), s, now) == Some(s)
  {
  }

  // ---------------------------------------------------------------------------------------------
  // Writing.

  function LineOf(x: Issued): Text
  {
    Base64.Encode(x.token) + [SPACE] + ToText(x.expires)
  }

  function Serialized(s: Store): Text
  {
    if s == [] then [] else LineOf(s[0]) + [NEWLINE] + Serialized(s[1..])
  }

  lemma {:induction false} OneMoreLine(s: Store, x: Issued)
    ensures Serialized(s + [x]) == Serialized(s) + (LineOf(x) + [NEWLINE])
  {
    hide LineOf;
    var all := s + [x];
    if s == [] {
      assert all == [x] && all[1..] == [];
    } else {
      assert all[0] == s[0] && all[1..] == s[1..] + [x];
      OneMoreLine(s[1..], x);
    }
  }

  method SerializePairingTokens(tokens: PairingTokens) returns (out: Text)
    ensures out == Serialized(tokens.tokens)
  {
    hide Base64.Encode, ToText, Serialized;
    out := [];
    var i := 0;
    NothingSerialized();
    while i < |tokens.tokens|
      invariant 0 <= i <= |tokens.tokens|
      invariant out == Serialized(tokens.tokens[..i])
    {
      var issued := tokens.tokens[i];
      OneMoreLine(tokens.tokens[..i], issued);
      assert tokens.tokens[..i + 1] == tokens.tokens[..i] + [issued];
      var symbols := Base64.EncodeBase64(issued.token);
      ghost var before := out;
      out := out + symbols;
      out := out + [SPACE];
      out := out + ToText(issued.expires);
      out := out + [NEWLINE];
      assert out == before + (LineOf(issued) + [NEWLINE]);
      i := i + 1;
    }
    assert tokens.tokens[..i] == tokens.tokens;
  }

  lemma NothingSerialized()
    ensures Serialized([]) == []
  {
  }

  // ---------------------------------------------------------------------------------------------
  // The round trip.

  lemma {:induction false} IndexBehind(front: Text, b: Byte, rest: Text)
    requires forall i | 0 <= i < |front| :: front[i] != b
    ensures IndexOf(front + [b] + rest, b) == |front|
  {
    if front == [] {
      assert front + [b] + rest == [b] + rest;
    } else {
      assert (front + [b] + rest)[1..] == front[1..] + [b] + rest;
      IndexBehind(front[1..], b, rest);
    }
  }

  lemma SymbolsOfToken(t: Token)
    ensures |Base64.Encode(t)| == 43 && Base64.Decode(Base64.Encode(t)) == Some(t)
    ensures forall i | 0 <= i < 43 :: Base64.Encode(t)[i] > SPACE
  {
    Base64.EncodedLength(t, 0, 0);
    Base64.RoundTripIff(t);
    var s := Base64.Encode(t);
    forall i | 0 <= i < |s| ensures s[i] > SPACE {
      assert Base64.IsSymbol(s[i]);
    }
  }

  lemma TimeText(n: Int64)
    ensures 0 < |ToText(n)| <= 20
    ensures forall i | 0 <= i < |ToText(n)| :: ToText(n)[i] > SPACE
    ensures ToText(n)[|ToText(n)| - 1] != RETURN
    ensures ReadTime(ToText(n)) == if n >= 0 then Some(n) else None
  {
    var m: nat := if n < 0 then -(n as int) else n;
    NineteenDigits();
    DigitsAreShort(m, 19);
    DigitsDenoteTheNumber(m);
    assert forall i | 0 <= i < |Digits(m)| :: IsDigit(Digits(m)[i]);
    var s := ToText(n);
    if n < 0 {
      assert s[0] == MINUS && !IsDigit(s[0]);
      assert forall i | 0 < i < |s| :: s[i] == Digits(m)[i - 1];
    }
  }

  lemma NineteenDigits()
    ensures Pow10(19) > TWO63
  {
    assert Pow10(5) == 100_000;
    assert Pow10(10) == 10_000_000_000;
    assert Pow10(15) == 1_000_000_000_000_000;
  }

  lemma LineIsRead(x: Issued)
    ensures 0 < |LineOf(x)| <= 64
    ensures forall i | 0 <= i < |LineOf(x)| :: LineOf(x)[i] != NEWLINE
    ensures ReadLine(LineOf(x)) == if x.expires >= 0 then Entry(x) else Bad
  {
    hide Base64.Encode, Base64.Decode, ToText, ReadTime, IndexOf;
    var symbols, time, line := Base64.Encode(x.token), ToText(x.expires), LineOf(x);
    SymbolsOfToken(x.token);
    TimeText(x.expires);
    IndexBehind(symbols, SPACE, time);
    assert line[|line| - 1] == time[|time| - 1];
    assert line[..43] == symbols && line[44..] == time;
  }

  // A store that is live and sound, its tokens taken up one by one.
  lemma NextIsTakenUp(s: Store, x: Issued, rest: Store, now: Int64)
    requires Sound(s + [x] + rest) && AllLive(s, now) && x.expires > now
    ensures WithToken(s, x.token, x.expires, now) == Some(s + [x])
  {
    var all := s + [x] + rest;
    assert all[|s|] == x && forall i | 0 <= i < |s| :: all[i] == s[i];
    LiveKeepsLive(s, now);
    assert s + [Issued(x.token, x.expires)] == s + [x];
  }

  // Some token of the store carries a time before 1970.
  predicate HasNegativeExpiry(s: Store)
  {
    exists i :: 0 <= i < |s| && s[i].expires < 0
  }

  lemma {:induction false} LinesAreRead(s: Store, rest: Store, now: Int64)
    requires Sound(s + rest) && AllLive(s, now)
    ensures ReadLines(Serialized(rest), s, now) == if HasNegativeExpiry(rest) then None else Some(s + Live(rest, now))
    decreases |rest|
  {
    if rest == [] {
      assert Live(rest, now) == [] && s + [] == s;
    } else {
      hide ReadLines, Sound, AllLive, Serialized, HasNegativeExpiry, Live;
      var x, more := rest[0], rest[1..];
      assert s + rest == s + [x] + more;
      FirstLineIsTaken(s, rest, now);
      NegativeHeadOrTail(rest);
      if x.expires >= 0 {
        NextStore(s, rest, now);
        LinesAreRead(if x.expires > now then s + [x] else s, more, now);
      }
    }
  }

  // What is there already, with the first line taken up or not, goes with the lines behind it.
  lemma NextStore(s: Store, rest: Store, now: Int64)
    requires rest != [] && Sound(s + [rest[0]] + rest[1..]) && AllLive(s, now)
    ensures var next := if rest[0].expires > now then s + [rest[0]] else s;
            Sound(next + rest[1..]) && AllLive(next, now) && next + Live(rest[1..], now) == s + Live(rest, now)
  {
    hide Sound, AllLive, Live;
    LiveHead(rest, now);
    if rest[0].expires > now {
      OneMoreLive(s, rest[0], now);
      assert s + [rest[0]] + Live(rest[1..], now) == s + ([rest[0]] + Live(rest[1..], now));
    } else {
      WithoutStale(s, rest[0], rest[1..]);
    }
  }

  lemma FirstLineIsTaken(s: Store, rest: Store, now: Int64)
    requires rest != [] && Sound(s + [rest[0]] + rest[1..]) && AllLive(s, now)
    ensures ReadLines(Serialized(rest), s, now) ==
              if rest[0].expires < 0 then None
              else ReadLines(Serialized(rest[1..]), if rest[0].expires > now then s + [rest[0]] else s, now)
  {
    hide ReadLine, LineOf, Sound, AllLive, WithToken, Serialized;
    LineIsRead(rest[0]);
    FirstLine(rest);
    if rest[0].expires > now { NextIsTakenUp(s, rest[0], rest[1..], now); }
  }

  lemma LiveHead(s: Store, now: Int64)
    requires s != []
    ensures Live(s, now) == if s[0].expires <= now then Live(s[1..], now) else [s[0]] + Live(s[1..], now)
  {
  }

  lemma OneMoreLive(s: Store, x: Issued, now: Int64)
    requires AllLive(s, now) && x.expires > now
    ensures AllLive(s + [x], now)
  {
  }

  lemma WithoutStale(s: Store, x: Issued, more: Store)
    requires Sound(s + [x] + more)
    ensures Sound(s + more)
  {
    hide Sound;
    WithoutIsSound(s + [x] + more, |s|);
    assert Without(s + [x] + more, |s|) == s + more;
  }

  lemma FirstLine(rest: Store)
    requires rest != []
    ensures var line, text := LineOf(rest[0]), Serialized(rest);
            && IndexOf(text, NEWLINE) == |line| < |text|
            && text[..|line|] == line && text[|line| + 1..] == Serialized(rest[1..])
  {
    hide LineOf, IndexOf;
    LineIsRead(rest[0]);
    IndexBehind(LineOf(rest[0]), NEWLINE, Serialized(rest[1..]));
  }

  lemma NegativeHeadOrTail(s: Store)
    requires s != []
    ensures HasNegativeExpiry(s) <==> s[0].expires < 0 || HasNegativeExpiry(s[1..])
  {
    if HasNegativeExpiry(s[1..]) {
      var i :| 0 <= i < |s| - 1 && s[1..][i].expires < 0;
      assert s[i + 1].expires < 0;
    }
    if HasNegativeExpiry(s) && s[0].expires >= 0 {
      var i :| 0 <= i < |s| && s[i].expires < 0;
      assert s[1..][i - 1].expires < 0;
    }
  }

  lemma {:induction false} SerializedIsShort(s: Store)
    ensures |Serialized(s)| <= 65 * |s|
  {
    if s != [] {
      LineIsRead(s[0]);
      SerializedIsShort(s[1..]);
    }
  }

  // Whatever the time, a sound store is read back as what is then live of it, in its order; but a time before
  // 1970 spoils the whole file.
  lemma StoreIsReadBack(s: Store, now: Int64)
    requires Sound(s)
    ensures Parsed(Serialized(s), now) == if HasNegativeExpiry(s) then None else Some(Live(s, now))
  {
    SerializedIsShort(s);
    assert [] + s == s && [] + Live(s, now) == Live(s, now);
    LinesAreRead([], s, now);
  }

  // Every sound store whose tokens are all live is read back in order: exactly when none of them
  // expires before 1970, a time the writer puts down with a sign and the reader refuses.
  lemma RoundTripIff(s: Store, now: Int64)
    requires Sound(s) && AllLive(s, now)
    ensures Parsed(Serialized(s), now) == Some(s) <==> forall i | 0 <= i < |s| :: s[i].expires >= 0
  {
    StoreIsReadBack(s, now);
    LiveKeepsLive(s, now);
  }

  // One operation at a time before 1970 leaves such a store.
  lemma EarlyIssueIsNotRead(t: Token)
    requires !IsZero(t)
    ensures Run([Issue(t, -5, -10)]) == [Issued(t, -5)] && AllLive([Issued(t, -5)], -10)
    ensures Parsed(Serialized(Run([Issue(t, -5, -10)])), -10) != Some(Run([Issue(t, -5, -10)]))
  {
    var ops := [Issue(t, -5, -10)];
    assert ops[..0] == [] && Run([]) == [];
    RunIsSound(ops);
    assert Run(ops)[0].expires < 0;
    RoundTripIff(Run(ops), -10);
  }

  // Reached stores are sound, so this is so of every store that any run of operations leaves.
  lemma ReachedRoundTrip(ops: seq<Op>, now: Int64)
    requires AllLive(Run(ops), now) && now >= 0
    ensures Parsed(Serialized(Run(ops)), now) == Some(Run(ops))
  {
    RunIsSound(ops);
    RoundTripIff(Run(ops), now);
  }

  // The times that reading puts into a store are not negative, and all lie ahead.
  ghost predicate Readable(s: Store, now: Int64)
  {
    Sound(s) && AllLive(s, now) && forall i | 0 <= i < |s| :: s[i].expires >= 0
  }

  lemma TakingUpKeepsReadable(s: Store, x: Issued, now: Int64)
    requires Readable(s, now) && x.expires > now && x.expires >= 0
    requires WithToken(s, x.token, x.expires, now).Some?
    ensures Readable(WithToken(s, x.token, x.expires, now).value, now)
  {
    hide Sound, Has, IsZero, Soonest;
    LiveKeepsLive(s, now);
    IssueKeepsSound(s, x.token, x.expires, now);
    var r := WithToken(s, x.token, x.expires, now).value;
    forall i | 0 <= i < |r| ensures r[i].expires > now && r[i].expires >= 0 {
      if i < |r| - 1 {
        assert r[i] in s;
      }
    }
  }

  lemma EntryIsNotNegative(raw: Text)
    requires ReadLine(raw).Entry?
    ensures ReadLine(raw).issued.expires >= 0
  {
  }

  lemma {:induction false} ReadingKeepsReadable(text: Text, s: Store, now: Int64)
    requires Readable(s, now)
    ensures ReadLines(text, s, now).Some? ==> Readable(ReadLines(text, s, now).value, now)
    decreases |text|
  {
    hide Readable, WithToken, ReadLine, IndexOf;
    if text != [] {
      var end := IndexOf(text, NEWLINE);
      var rest := if end == |text| then [] else text[end + 1..];
      var line := ReadLine(text[..end]);
      if Taken(line, s, now).Some? {
        if line.Entry? && line.issued.expires > now {
          EntryIsNotNegative(text[..end]);
          TakingUpKeepsReadable(s, line.issued, now);
        }
        ReadingKeepsReadable(rest, Taken(line, s, now).value, now);
      }
    }
  }

  // Whatever text is accepted, writing it out again gives a text that reads the same: line ends,
  // blank lines, stale tokens and evicted ones are gone, the rest is a fixed point.
  lemma AcceptedTextSettles(text: Text, now: Int64)
    requires Parsed(text, now).Some?
    ensures Parsed(Serialized(Parsed(text, now).value), now) == Parsed(text, now)
  {
    ReadingKeepsReadable(text, [], now);
    RoundTripIff(Parsed(text, now).value, now);
  }

  // The text: a token in base64url, a space, its time, and a line feed.
  lemma SerializedIs(s: Store)
    ensures Serialized([]) == []
    ensures s != [] ==>
              Serialized(s) == Base64.Encode(s[0].token) + [0x20] + ToText(s[0].expires) + [0x0A] + Serialized(s[1..])
  {
  }

  // A carriage return at the end of a line is dropped, an empty line is skipped, and a line of more than 96
  // bytes or a file of more than 4096 is refused.
  lemma LinesAreTolerant(x: Issued, raw: Text, text: Text, now: Int64)
    ensures ReadLine(LineOf(x) + [0x0D]) == ReadLine(LineOf(x))
    ensures ReadLine([]) == ReadLine([0x0D]) == Blank
    ensures |raw| > 97 || (|raw| == 97 && raw[96] != 0x0D) ==> ReadLine(raw) == Bad
    ensures |text| > 4096 ==> Parsed(text, now) == None
  {
    LineEndsInText(x);
    assert WithoutReturn(LineOf(x) + [0x0D]) == LineOf(x) == WithoutReturn(LineOf(x));
  }

  lemma LineEndsInText(x: Issued)
    ensures LineOf(x) != [] && LineOf(x)[|LineOf(x)| - 1] != RETURN
  {
    TimeText(x.expires);
    var time := ToText(x.expires);
    assert LineOf(x)[|LineOf(x)| - 1] == time[|time| - 1];
  }

  // What a line does to the store: a stale token is passed over, a zero token or one that is there already
  // spoils the file, and any other stands behind the rest.
  lemma LineIsTaken(x: Issued, s: Store, now: Int64)
    requires Sound(s) && AllLive(s, now)
    ensures Taken(Blank, s, now) == Some(s) && Taken(Bad, s, now) == None
    ensures x.expires <= now ==> Taken(Entry(x), s, now) == Some(s)
    ensures x.expires > now ==>
              (Taken(Entry(x), s, now) == None <==>
               (forall i | 0 <= i < 32 :: x.token[i] == 0) || exists y :: y in s && y.token == x.token)
    ensures x.expires > now && |s| < 4 && Taken(Entry(x), s, now).Some? ==> Taken(Entry(x), s, now) == Some(s + [x])
  {
    LiveKeepsLive(s, now);
    HasMember(s, x.token);
    assert Issued(x.token, x.expires) == x;
  }

  // A file of empty lines is an empty store, up to the length that is read at all.
  lemma {:induction false} EmptyLinesAreRead(text: Text, s: Store, now: Int64)
    requires forall i | 0 <= i < |text| :: text[i] == 0x0A
    ensures ReadLines(text, s, now) == Some(s)
    decreases |text|
  {
    if text != [] {
      assert IndexOf(text, NEWLINE) == 0;
      EmptyLinesAreRead(text[1..], s, now);
    }
  }

  lemma EmptyFileIsReadIff(text: Text, now: Int64)
    requires forall i | 0 <= i < |text| :: text[i] == 0x0A
    ensures Parsed(text, now) == if |text| <= 4096 then Some([]) else None
  {
    EmptyLinesAreRead(text, [], now);
  }

  // Times with and without zeros in front, at the end of their range and beyond it.
  lemma KnownTimes()
    ensures ReadTime([0x30, 0x30, 0x37]) == Some(7) && ReadTime([]) == None && ReadTime([0x2D, 0x37]) == None
    ensures ReadTime(Digits(9_223_372_036_854_775_807)) == Some(9_223_372_036_854_775_807)
    ensures ReadTime(Digits(9_223_372_036_854_775_808)) == None
  {
    assert Value([0x30, 0x30, 0x37]) == 7 by {
      assert [0x30, 0x30, 0x37][..2] == [0x30, 0x30] && [0x30, 0x30][..1] == [0x30] && [0x30][..0] == [];
      assert Value([]) == 0 && Value([0x30]) == 0 && Value([0x30, 0x30]) == 0;
    }
    hide Digits, Value;
    DigitsDenoteTheNumber(9_223_372_036_854_775_807);
    DigitsDenoteTheNumber(9_223_372_036_854_775_808);
    NineteenDigits();
    DigitsAreShort(9_223_372_036_854_775_807, 19);
  }
}

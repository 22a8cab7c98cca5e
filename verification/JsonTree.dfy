// JSON values, their one serialisation without white space, and a reader for RFC 8259 text.
module JsonTree {
  import opened Machine
  import opened Decimal
  import opened Utf8
  import opened JsonText

  datatype Json<T> =
    | Object(members: seq<Member<T>>)
    | Array(items: seq<Json<T>>)
    | Str(text: T)
    | Number(n: Int64)
    | Boolean(b: bool)

  datatype Member<T> = Member(key: T, value: Json<T>)

  const COMMA: Byte := 0x2C
  const COLON: Byte := 0x3A
  const TRUE_TEXT: Text := [0x74, 0x72, 0x75, 0x65]
  const FALSE_TEXT: Text := [0x66, 0x61, 0x6C, 0x73, 0x65]

  function Quoted(text: Text): Text
  {
    [QUOTE] + Escape(text) + [QUOTE]
  }

  function BooleanText(b: bool): Text
  {
    if b then TRUE_TEXT else FALSE_TEXT
  }

  function Print(t: Json<Text>): (s: Text)
    decreases t, 1
  {
    match t
    case Object(members) => [0x7B] + PrintMembers(members) + [0x7D]
    case Array(items) => [0x5B] + PrintItems(items) + [0x5D]
    case Str(text) => Quoted(text)
    case Number(n) => ToText(n)
    case Boolean(b) => BooleanText(b)
  }

  function PrintItems(items: seq<Json<Text>>): Text
    decreases items, 0
  {
    if items == [] then []
    else Print(items[0]) + (if |items| == 1 then [] else [COMMA] + PrintItems(items[1..]))
  }

  function PrintMember(m: Member<Text>): Text
    decreases m, 2
  {
    Quoted(m.key) + [COLON] + Print(m.value)
  }

  function PrintMembers(members: seq<Member<Text>>): Text
    decreases members, 0
  {
    if members == [] then []
    else PrintMember(members[0]) + (if |members| == 1 then [] else [COMMA] + PrintMembers(members[1..]))
  }

  // What a value of byte strings stands for: the same tree over Unicode text.
  function Meaning(t: Json<Text>): Json<seq<Scalar>>
    decreases t, 1
  {
    match t
    case Object(members) => Object(MembersMeaning(members))
    case Array(items) => Array(ItemsMeaning(items))
    case Str(text) => Str(Scalars(text))
    case Number(n) => Number(n)
    case Boolean(b) => Boolean(b)
  }

  function ItemsMeaning(items: seq<Json<Text>>): seq<Json<seq<Scalar>>>
    decreases items, 0
  {
    if items == [] then [] else [Meaning(items[0])] + ItemsMeaning(items[1..])
  }

  function MembersMeaning(members: seq<Member<Text>>): seq<Member<seq<Scalar>>>
    decreases members, 0
  {
    if members == [] then []
    else [MemberMeaning(members[0])] + MembersMeaning(members[1..])
  }

  function MemberMeaning(m: Member<Text>): Member<seq<Scalar>>
    decreases m, 2
  {
    Member(Scalars(m.key), Meaning(m.value))
  }

  // ---------------------------------------------------------------------------------------------
  // The reader: RFC 8259 sections 2, 3, 4, 5 and 7, white space included; numbers are integers in
  // the range of int64_t.

  predicate IsSpace(b: Byte) { b == 0x20 || b == 0x09 || b == 0x0A || b == 0x0D }

  function SkipSpace(s: Text): (r: Text)
    ensures |r| <= |s|
    ensures r != [] ==> !IsSpace(r[0])
  {
    if s != [] && IsSpace(s[0]) then SkipSpace(s[1..]) else s
  }

  function DigitCount(s: Text): (n: nat)
    ensures n <= |s|
    ensures AllDigits(s[..n])
    ensures n < |s| ==> !IsDigit(s[n])
  {
    if s != [] && IsDigit(s[0]) then 1 + DigitCount(s[1..]) else 0
  }

  function ReadNatural(s: Text): (r: Option<(nat, Text)>)
    ensures r.Some? ==> |r.value.1| < |s|
  {
    var n := DigitCount(s);
    if n == 0 || (n > 1 && s[0] == ZERO) then None
    else if n < |s| && (s[n] == 0x2E || s[n] == 0x65 || s[n] == 0x45) then None
    else Some((Value(s[..n]), s[n..]))
  }

  function ReadNumber(s: Text): (r: Option<(Json<seq<Scalar>>, Text)>)
    ensures r.Some? ==> |r.value.1| < |s|
  {
    var negative := s != [] && s[0] == MINUS;
    match ReadNatural(if negative then s[1..] else s)
    case None => None
    case Some((m, rest)) =>
      var n: int := if negative then -(m as int) else m;
      if -TWO63 <= n < TWO63 then Some((Number(n), rest)) else None
  }

  function ReadLiteral(s: Text): (r: Option<(Json<seq<Scalar>>, Text)>)
    ensures r.Some? ==> |r.value.1| < |s|
  {
    if TRUE_TEXT <= s then Some((Boolean(true), s[4..]))
    else if FALSE_TEXT <= s then Some((Boolean(false), s[5..]))
    else None
  }

  function ReadValue(text: Text): (r: Option<(Json<seq<Scalar>>, Text)>)
    ensures r.Some? ==> |r.value.1| < |text|
    decreases |text|, 0
  {
    var s := SkipSpace(text);
    if s == [] then None
    else if s[0] == 0x7B then
      var behind := SkipSpace(s[1..]);
      if behind != [] && behind[0] == 0x7D then Some((Object([]), behind[1..]))
      else match ReadMembers(behind)
        case None => None
        case Some((members, rest)) => Some((Object(members), rest))
    else if s[0] == 0x5B then
      var behind := SkipSpace(s[1..]);
      if behind != [] && behind[0] == 0x5D then Some((Array([]), behind[1..]))
      else match ReadItems(behind)
        case None => None
        case Some((items, rest)) => Some((Array(items), rest))
    else if s[0] == QUOTE then
      match ReadChars(s[1..])
      case None => None
      case Some((chars, rest)) => Some((Str(chars), rest))
    else if s[0] == MINUS || IsDigit(s[0]) then ReadNumber(s)
    else ReadLiteral(s)
  }

  // One or more values separated by commas, up to and including the closing bracket.
  function ReadItems(s: Text): (r: Option<(seq<Json<seq<Scalar>>>, Text)>)
    ensures r.Some? ==> |r.value.1| < |s|
    decreases |s|, 1
  {
    match ReadValue(s)
    case None => None
    case Some((value, rest)) =>
      var behind := SkipSpace(rest);
      if behind == [] then None
      else if behind[0] == 0x5D then Some(([value], behind[1..]))
      else if behind[0] != COMMA then None
      else match ReadItems(behind[1..])
        case None => None
        case Some((values, end)) => Some(([value] + values, end))
  }

  // A key and the text behind its colon.
  function ReadKey(text: Text): (r: Option<(seq<Scalar>, Text)>)
    ensures r.Some? ==> |r.value.1| < |text|
  {
    var s := SkipSpace(text);
    if s == [] || s[0] != QUOTE then None
    else match ReadChars(s[1..])
      case None => None
      case Some((key, rest)) =>
        var behind := SkipSpace(rest);
        if behind == [] || behind[0] != COLON then None else Some((key, behind[1..]))
  }

  function ReadMembers(s: Text): (r: Option<(seq<Member<seq<Scalar>>>, Text)>)
    ensures r.Some? ==> |r.value.1| < |s|
    decreases |s|, 1
  {
    match ReadKey(s)
    case None => None
    case Some((key, afterKey)) =>
      match ReadValue(afterKey)
      case None => None
      case Some((value, rest)) =>
        var behind := SkipSpace(rest);
        if behind == [] then None
        else if behind[0] == 0x7D then Some(([Member(key, value)], behind[1..]))
        else if behind[0] != COMMA then None
        else match ReadMembers(behind[1..])
          case None => None
          case Some((members, end)) => Some(([Member(key, value)] + members, end))
  }

  // A whole document: one value with nothing but white space behind it.
  function ReadDocument(s: Text): Option<Json<seq<Scalar>>>
  {
    match ReadValue(s)
    case Some((value, rest)) => if SkipSpace(rest) == [] then Some(value) else None
    case None => None
  }

  // ---------------------------------------------------------------------------------------------
  // Reading back what Print wrote.

  // What may stand behind a value: nothing, a comma or a closing bracket.
  predicate Delimits(s: Text)
  {
    s == [] || s[0] == COMMA || s[0] == 0x7D || s[0] == 0x5D
  }

  lemma {:induction false} DigitRunIsRead(digits: Text, rest: Text)
    requires AllDigits(digits) && (rest == [] || !IsDigit(rest[0]))
    ensures DigitCount(digits + rest) == |digits|
  {
    if digits == [] {
      assert digits + rest == rest;
    } else {
      assert (digits + rest)[1..] == digits[1..] + rest;
      DigitRunIsRead(digits[1..], rest);
    }
  }

  lemma NaturalIsRead(n: nat, rest: Text)
    requires Delimits(rest)
    ensures ReadNatural(Digits(n) + rest) == Some((n, rest))
  {
    var d := Digits(n);
    var s := d + rest;
    DigitRunIsRead(d, rest);
    DigitsDenoteTheNumber(n);
    assert s[..|d|] == d && s[|d|..] == rest;
    assert s[0] == d[0];
  }

  lemma SignedNaturalIsRead(n: nat, rest: Text)
    requires Delimits(rest)
    ensures n < TWO63 ==> ReadNumber(Digits(n) + rest) == Some((Number(n), rest))
    ensures n <= TWO63 ==> ReadNumber([MINUS] + Digits(n) + rest) == Some((Number(-(n as int)), rest))
  {
    hide ReadNatural, Digits;
    var s := Digits(n) + rest;
    NaturalIsRead(n, rest);
    assert s[0] == Digits(n)[0] && IsDigit(Digits(n)[0]);
    assert ([MINUS] + Digits(n) + rest)[1..] == s;
  }

  lemma NumberIsRead(n: Int64, rest: Text)
    requires Delimits(rest)
    ensures ReadNumber(ToText(n) + rest) == Some((Number(n), rest))
  {
    SignedNaturalIsRead(if n < 0 then -(n as int) else n, rest);
  }

  lemma StringIsRead(text: Text, rest: Text)
    ensures ReadChars((Quoted(text) + rest)[1..]) == Some((Scalars(text), rest))
  {
    assert (Quoted(text) + rest)[1..] == Escape(text) + [QUOTE] + rest;
    UnescapeOfEscape(text, rest);
  }

  // The first byte of a printed value: never white space, and never a closing bracket.
  lemma FirstByte(t: Json<Text>)
    ensures Print(t) != []
    ensures !IsSpace(Print(t)[0]) && Print(t)[0] != 0x5D && Print(t)[0] != 0x7D
  {
    if t.Number? {
      assert ToText(t.n)[0] == MINUS || IsDigit(ToText(t.n)[0]);
    }
  }

  // How ReadItems and ReadMembers go on behind one element.
  lemma ReadItemsUnfolds(s: Text, value: Json<seq<Scalar>>, behind: Text)
    requires behind != [] && !IsSpace(behind[0])
    requires ReadValue(s) == Some((value, behind))
    ensures behind[0] == 0x5D ==> ReadItems(s) == Some(([value], behind[1..]))
    ensures behind[0] == COMMA && ReadItems(behind[1..]).Some? ==>
              ReadItems(s) == Some(([value] + ReadItems(behind[1..]).value.0, ReadItems(behind[1..]).value.1))
  {
    assert SkipSpace(behind) == behind;
  }

  lemma ReadMembersUnfolds(s: Text, afterKey: Text, m: Member<seq<Scalar>>, behind: Text)
    requires behind != [] && !IsSpace(behind[0])
    requires ReadKey(s) == Some((m.key, afterKey))
    requires ReadValue(afterKey) == Some((m.value, behind))
    ensures behind[0] == 0x7D ==> ReadMembers(s) == Some(([m], behind[1..]))
    ensures behind[0] == COMMA && ReadMembers(behind[1..]).Some? ==>
              ReadMembers(s) == Some(([m] + ReadMembers(behind[1..]).value.0, ReadMembers(behind[1..]).value.1))
  {
    assert SkipSpace(behind) == behind;
  }

  // Every value is read back as what it means, whatever delimited text follows it.
  lemma {:induction false} ValueIsRead(t: Json<Text>, rest: Text)
    requires Delimits(rest)
    ensures ReadValue(Print(t) + rest) == Some((Meaning(t), rest))
    decreases t, 1
  {
    match t
    case Object(members) =>
      if members != [] { MembersAreRead(members, rest); }
      ObjectIsRead(members, rest);
    case Array(items) =>
      if items != [] { ItemsAreRead(items, rest); }
      ArrayIsRead(items, rest);
    case _ =>
      ScalarIsRead(t, rest);
  }

  lemma ScalarIsRead(t: Json<Text>, rest: Text)
    requires Delimits(rest) && !t.Object? && !t.Array?
    ensures ReadValue(Print(t) + rest) == Some((Meaning(t), rest))
  {
    var s := Print(t) + rest;
    FirstByte(t);
    assert s[0] == Print(t)[0];
    assert SkipSpace(s) == s;
    match t
    case Str(text) =>
      StringIsRead(text, rest);
    case Number(n) =>
      assert ToText(n)[0] == MINUS || IsDigit(ToText(n)[0]);
      NumberIsRead(n, rest);
    case Boolean(b) =>
      assert BooleanText(b) <= s && s[|BooleanText(b)|..] == rest;
      assert s[0] == BooleanText(b)[0];
  }

  lemma ObjectIsRead(members: seq<Member<Text>>, rest: Text)
    requires members != [] ==>
               ReadMembers(PrintMembers(members) + [0x7D] + rest) == Some((MembersMeaning(members), rest))
    ensures ReadValue(Print(Object(members)) + rest) == Some((Meaning(Object(members)), rest))
  {
    hide ReadMembers, Escape;
    var s := Print(Object(members)) + rest;
    var body := PrintMembers(members) + [0x7D] + rest;
    assert s[0] == 0x7B && s[1..] == body;
    assert SkipSpace(s) == s;
    if members == [] {
      assert body == [0x7D] + rest;
    } else {
      assert PrintMember(members[0])[0] == QUOTE;
      assert body[0] == QUOTE;
    }
    assert SkipSpace(body) == body;
  }

  lemma ArrayIsRead(items: seq<Json<Text>>, rest: Text)
    requires items != [] ==> ReadItems(PrintItems(items) + [0x5D] + rest) == Some((ItemsMeaning(items), rest))
    ensures ReadValue(Print(Array(items)) + rest) == Some((Meaning(Array(items)), rest))
  {
    hide ReadItems;
    var s := Print(Array(items)) + rest;
    var body := PrintItems(items) + [0x5D] + rest;
    assert s[0] == 0x5B && s[1..] == body;
    assert SkipSpace(s) == s;
    if items == [] {
      assert body == [0x5D] + rest;
    } else {
      FirstByte(items[0]);
      assert body[0] == Print(items[0])[0];
    }
    assert SkipSpace(body) == body;
  }

  lemma {:induction false} ItemsAreRead(items: seq<Json<Text>>, rest: Text)
    requires items != []
    ensures ReadItems(PrintItems(items) + [0x5D] + rest) == Some((ItemsMeaning(items), rest))
    decreases items, 0
  {
    hide ReadValue, ReadItems, Print, Meaning;
    var s := PrintItems(items) + [0x5D] + rest;
    var next := PrintItems(items[1..]) + [0x5D] + rest;
    var behind := if |items| == 1 then [0x5D] + rest else [COMMA] + next;
    assert s == Print(items[0]) + behind;
    ValueIsRead(items[0], behind);
    ReadItemsUnfolds(s, Meaning(items[0]), behind);
    if |items| == 1 {
      assert behind[1..] == rest;
      assert items[1..] == [] && ItemsMeaning(items) == [Meaning(items[0])];
    } else {
      assert behind[1..] == next;
      ItemsAreRead(items[1..], rest);
    }
  }

  lemma KeyIsRead(key: Text, rest: Text)
    ensures ReadKey(Quoted(key) + [COLON] + rest) == Some((Scalars(key), rest))
  {
    var s := Quoted(key) + [COLON] + rest;
    var behind := [COLON] + rest;
    assert s == Quoted(key) + behind;
    assert s[0] == QUOTE;
    assert SkipSpace(s) == s;
    StringIsRead(key, behind);
    assert SkipSpace(behind) == behind && behind[1..] == rest;
  }

  lemma {:induction false} MemberIsRead(m: Member<Text>, behind: Text)
    requires Delimits(behind)
    ensures ReadKey(PrintMember(m) + behind) == Some((Scalars(m.key), Print(m.value) + behind))
    ensures ReadValue(Print(m.value) + behind) == Some((Meaning(m.value), behind))
    decreases m, 2
  {
    assert PrintMember(m) + behind == Quoted(m.key) + [COLON] + (Print(m.value) + behind);
    KeyIsRead(m.key, Print(m.value) + behind);
    ValueIsRead(m.value, behind);
  }

  lemma {:induction false} MembersAreRead(members: seq<Member<Text>>, rest: Text)
    requires members != []
    ensures ReadMembers(PrintMembers(members) + [0x7D] + rest) == Some((MembersMeaning(members), rest))
    decreases members, 0
  {
    hide ReadValue, ReadKey, ReadMembers, Print, PrintMember, Meaning, Escape;
    var m := members[0];
    var s := PrintMembers(members) + [0x7D] + rest;
    var next := PrintMembers(members[1..]) + [0x7D] + rest;
    var behind := if |members| == 1 then [0x7D] + rest else [COMMA] + next;
    assert s == PrintMember(m) + behind;
    MemberIsRead(m, behind);
    ReadMembersUnfolds(s, Print(m.value) + behind, MemberMeaning(m), behind);
    if |members| == 1 {
      assert behind[1..] == rest;
      assert members[1..] == [] && MembersMeaning(members) == [MemberMeaning(m)];
    } else {
      assert behind[1..] == next;
      MembersAreRead(members[1..], rest);
    }
  }

  // The round trip: a reader of RFC 8259 text gets the printed tree back.
  lemma DocumentIsRead(t: Json<Text>)
    ensures ReadDocument(Print(t)) == Some(Meaning(t))
  {
    ValueIsRead(t, []);
    assert Print(t) + [] == Print(t);
  }

  // The serialisation has no white space of its own, and its punctuation is that of RFC 8259.
  lemma SerialisedLikeThis(key: Text, text: Text, n: Int64, b: bool)
    ensures Print(Object([])) == [0x7B, 0x7D] && Print(Array([])) == [0x5B, 0x5D]
    ensures Print(Str(text)) == [0x22] + Escape(text) + [0x22] && Print(Number(n)) == ToText(n)
    ensures Print(Boolean(b)) == if b then [0x74, 0x72, 0x75, 0x65] else [0x66, 0x61, 0x6C, 0x73, 0x65]
    ensures Print(Object([Member(key, Number(n)), Member(text, Boolean(b))]))
            == [0x7B] + ([0x22] + Escape(key) + [0x22] + [0x3A] + ToText(n))
               + ([0x2C] + ([0x22] + Escape(text) + [0x22] + [0x3A] + Print(Boolean(b)))) + [0x7D]
    ensures Print(Array([Number(n), Str(text)])) == [0x5B] + (ToText(n) + ([0x2C] + Print(Str(text)))) + [0x5D]
  {
    hide Escape, ToText;
    var m, o := Member(key, Number(n)), Member(text, Boolean(b));
    assert [m, o][1..] == [o];
    assert PrintMembers([o]) == PrintMember(o) + [];
    assert PrintMembers([m, o]) == PrintMember(m) + ([COMMA] + PrintMembers([o]));
    assert [Number(n), Str(text)][1..] == [Str(text)];
    assert PrintItems([Str(text)]) == Print(Str(text)) + [];
  }
}

// AuthTranscript: the bytes that are signed, each field behind its own length.
module Transcripts {
  import opened Machine
  import opened ByteOrder

  const DOMAIN: Text := [0x44, 0x65, 0x73, 0x6B, 0x68, 0x75, 0x62, 0x2F, 0x61, 0x75, 0x74, 0x68, 0x2F,
                         0x73, 0x69, 0x67, 0x6E, 0x61, 0x74, 0x75, 0x72, 0x65]
  const AUTH_VERSION: Byte := 8
  const CLIENT: Byte := 1
  const HOST: Byte := 2
  const MAX_BLOB_BYTES: nat := 256
  const ID_BYTES: nat := 32

  // What the signature is about. A session id and a fingerprint are 32 bytes each; the role is a byte
  // that may hold anything.
  datatype Claim = Claim(role: Byte, session: Text, clientKey: Text, hostKey: Text) {
    predicate Typed()
    {
      |session| == ID_BYTES && |hostKey| == ID_BYTES
    }

    predicate Valid()
    {
      && (role == CLIENT || role == HOST)
      && !AllZero(session) && !AllZero(hostKey)
      && 0 < |clientKey| <= MAX_BLOB_BYTES
    }

    function Fields(): seq<Text>
    {
      [DOMAIN, [AUTH_VERSION, role], session, clientKey, hostKey]
    }
  }

  predicate AllZero(s: Text)
  {
    forall i | 0 <= i < |s| :: s[i] == 0
  }

  function Field(field: Text): Text
  {
    Big32(U32(|field|)) + field
  }

  function Joined(fields: seq<Text>): Text
  {
    if fields == [] then [] else Field(fields[0]) + Joined(fields[1..])
  }

  function Transcript(c: Claim): Text
  {
    if c.Valid() then Joined(c.Fields()) else []
  }

  // The vector that the fields are appended to.
  class Output {
    var bytes: Text

    constructor ()
      ensures bytes == []
    {
      bytes := [];
    }

    method AppendField(field: Text)
      modifies this
      ensures bytes == old(bytes) + Field(field)
    {
      var size := U32(|field|);
      bytes := bytes + [size / 0x100_0000];
      bytes := bytes + [size / 0x1_0000 % 0x100];
      bytes := bytes + [size / 0x100 % 0x100];
      bytes := bytes + [size % 0x100];
      assert bytes == old(bytes) + Big32(size);
      bytes := bytes + field;
      assert old(bytes) + Big32(size) + field == old(bytes) + Field(field);
    }
  }

  method AuthTranscript(role: Byte, session: Text, clientKey: Text, hostKey: Text) returns (r: Text)
    ensures r == Transcript(Claim(role, session, clientKey, hostKey))
  {
    if (role != CLIENT && role != HOST) || AllZero(session) || clientKey == []
       || |clientKey| > MAX_BLOB_BYTES || AllZero(hostKey) {
      return [];
    }
    hide Field;
    var out := new Output();
    out.AppendField(DOMAIN);
    out.AppendField([AUTH_VERSION, role]);
    out.AppendField(session);
    out.AppendField(clientKey);
    out.AppendField(hostKey);
    FiveFields(DOMAIN, [AUTH_VERSION, role], session, clientKey, hostKey);
    return out.bytes;
  }

  lemma FiveFields(a: Text, b: Text, c: Text, d: Text, e: Text)
    ensures Joined([a, b, c, d, e]) == [] + Field(a) + Field(b) + Field(c) + Field(d) + Field(e)
  {
    hide Field;
    assert Joined([e]) == Field(e) by { assert [e][1..] == []; }
    assert Joined([d, e]) == Field(d) + Joined([e]) by { assert [d, e][1..] == [e]; }
    assert Joined([c, d, e]) == Field(c) + Joined([d, e]) by { assert [c, d, e][1..] == [d, e]; }
    assert Joined([b, c, d, e]) == Field(b) + Joined([c, d, e]) by { assert [b, c, d, e][1..] == [c, d, e]; }
    assert [a, b, c, d, e][1..] == [b, c, d, e];
  }

  // ---------------------------------------------------------------------------------------------
  // A reader for fields behind their lengths.

  function ReadField(s: Text): (r: Option<(Text, Text)>)
    ensures r.Some? ==> |r.value.1| < |s|
  {
    if |s| < 4 then None
    else
      var n: int := ReadBig32(s);
      if |s| - 4 < n then None else Some((s[4..4 + n], s[4 + n..]))
  }

  function ReadFields(s: Text): Option<seq<Text>>
    decreases |s|
  {
    if s == [] then Some([])
    else match ReadField(s)
      case None => None
      case Some((field, rest)) =>
        match ReadFields(rest)
        case None => None
        case Some(fields) => Some([field] + fields)
  }

  lemma FieldIsRead(field: Text, rest: Text)
    requires |field| < TWO32
    ensures Field(field) + rest != [] && ReadField(Field(field) + rest) == Some((field, rest))
  {
    hide Big32, ReadBig32;
    var s, n := Field(field) + rest, |field|;
    assert s == Big32(n) + (field + rest);
    NumbersAreRead(n, field + rest);
    assert s[4..4 + n] == field && s[4 + n..] == rest;
  }

  lemma FieldsAreRead(fields: seq<Text>)
    requires forall i | 0 <= i < |fields| :: |fields[i]| < TWO32
    ensures ReadFields(Joined(fields)) == Some(fields)
  {
    FieldsAreReadBefore(fields, []);
    assert Joined(fields) + [] == Joined(fields);
    assert fields + [] == fields;
  }

  // A reader of the transcript gets all five fields back.
  lemma TranscriptIsRead(c: Claim)
    requires c.Typed() && c.Valid()
    ensures ReadFields(Transcript(c)) ==
              Some([[0x44, 0x65, 0x73, 0x6B, 0x68, 0x75, 0x62, 0x2F, 0x61, 0x75, 0x74, 0x68, 0x2F,
                     0x73, 0x69, 0x67, 0x6E, 0x61, 0x74, 0x75, 0x72, 0x65],
                    [8, c.role], c.session, c.clientKey, c.hostKey])
  {
    FieldsAreRead(c.Fields());
  }

  // The transcript is empty exactly for a claim that is not valid.
  lemma EmptyIffInvalid(c: Claim)
    ensures Transcript(c) == [] <==> !c.Valid()
    ensures c.Valid() <==>
              && (c.role == 1 || c.role == 2) && 1 <= |c.clientKey| <= 256
              && (exists i :: 0 <= i < |c.session| && c.session[i] != 0)
              && (exists i :: 0 <= i < |c.hostKey| && c.hostKey[i] != 0)
  {
    if c.Valid() {
      assert |Joined(c.Fields())| >= |Field(DOMAIN)|;
    }
  }

  // Two claims with the same transcript are the same claim, whatever the length of their keys.
  lemma TranscriptDeterminesClaim(c: Claim, d: Claim)
    requires c.Typed() && d.Typed()
    requires Transcript(c) == Transcript(d) != []
    ensures c == d
  {
    EmptyIffInvalid(c);
    EmptyIffInvalid(d);
    TranscriptIsRead(c);
    TranscriptIsRead(d);
    assert c.Fields() == d.Fields();
    assert c.Fields()[1] == d.Fields()[1] && c.Fields()[2] == d.Fields()[2];
    assert c.Fields()[3] == d.Fields()[3] && c.Fields()[4] == d.Fields()[4];
    assert [AUTH_VERSION, c.role][1] == [AUTH_VERSION, d.role][1];
  }

  lemma FirstFieldIsRead(field: Text, tail: Text)
    requires |field| < TWO32
    ensures ReadFields(Field(field) + tail) == Behind([field], ReadFields(tail))
  {
    hide Field, ReadField;
    FieldIsRead(field, tail);
  }

  lemma {:induction false} FieldsAreReadBefore(fields: seq<Text>, rest: Text)
    requires forall i | 0 <= i < |fields| :: |fields[i]| < TWO32
    ensures ReadFields(Joined(fields) + rest) == Behind(fields, ReadFields(rest))
  {
    hide Field, ReadFields, Behind, Joined;
    BehindOneMore(fields, ReadFields(rest));
    JoinedBefore(fields, rest);
    if fields != [] {
      FirstFieldIsRead(fields[0], Joined(fields[1..]) + rest);
      FieldsAreReadBefore(fields[1..], rest);
    }
  }

  lemma JoinedBefore(fields: seq<Text>, rest: Text)
    ensures Joined(fields) + rest ==
              if fields == [] then rest else Field(fields[0]) + (Joined(fields[1..]) + rest)
  {
    hide Field;
  }

  lemma BehindOneMore(fields: seq<Text>, r: Option<seq<Text>>)
    ensures Behind(fields, r) == if fields == [] then r else Behind([fields[0]], Behind(fields[1..], r))
  {
    if r.Some? && fields == [] {
      assert fields + r.value == r.value;
    } else if r.Some? {
      assert [fields[0]] + (fields[1..] + r.value) == fields + r.value;
    }
  }

  // No transcript is the beginning of another.
  lemma NoTranscriptStartsAnother(c: Claim, d: Claim)
    requires c.Typed() && d.Typed() && c.Valid() && d.Valid()
    requires Transcript(c) <= Transcript(d)
    ensures c == d
  {
    var rest := Transcript(d)[|Transcript(c)|..];
    assert Transcript(d) == Transcript(c) + rest;
    FieldsAreReadBefore(c.Fields(), rest);
    TranscriptIsRead(d);
    var more := ReadFields(rest).value;
    assert |c.Fields() + more| == 5;
    assert more == [] && (rest != [] ==> |more| > 0);
    assert Transcript(c) == Transcript(d);
    EmptyIffInvalid(c);
    TranscriptDeterminesClaim(c, d);
  }
}

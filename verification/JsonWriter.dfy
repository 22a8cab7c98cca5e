// JsonWriter of Json.cpp: nested JSON from a flat sequence of calls, with one flag and no stack.
module JsonWriting {
  import opened Machine
  import opened Decimal
  import opened JsonText
  import opened JsonTree

  // One call on the writer.
  datatype Call =
    | ObjectBegin
    | ObjectEnd
    | ArrayBegin
    | ArrayEnd
    | FieldBegin(key: Text)
    | FieldText(key: Text, text: Text)
    | FieldNumber(key: Text, n: Int64)
    | FieldBoolean(key: Text, b: bool)
    | ValueText(text: Text)
    | ValueNumber(n: Int64)

  // The fields of the writer as a value.
  datatype Writer = Writer(out: Text, needComma: bool)

  const FRESH := Writer([], false)

  function Comma(needComma: bool): Text
  {
    if needComma then [COMMA] else []
  }

  function Keyed(w: Writer, key: Text): Writer
  {
    Writer(w.out + Comma(w.needComma) + Quoted(key) + [COLON], false)
  }

  function Apply(w: Writer, call: Call): Writer
  {
    match call
    case ObjectBegin => Writer(w.out + Comma(w.needComma) + [0x7B], false)
    case ObjectEnd => Writer(w.out + [0x7D], true)
    case ArrayBegin => Writer(w.out + Comma(w.needComma) + [0x5B], false)
    case ArrayEnd => Writer(w.out + [0x5D], true)
    case FieldBegin(key) => Keyed(w, key)
    case FieldText(key, text) => Writer(Keyed(w, key).out + Quoted(text), true)
    case FieldNumber(key, n) => Writer(Keyed(w, key).out + ToText(n), true)
    case FieldBoolean(key, b) => Writer(Keyed(w, key).out + BooleanText(b), true)
    case ValueText(text) => Writer(w.out + Comma(w.needComma) + Quoted(text), true)
    case ValueNumber(n) => Writer(w.out + Comma(w.needComma) + ToText(n), true)
  }

  function Run(w: Writer, calls: seq<Call>): Writer
    decreases |calls|
  {
    if calls == [] then w else Run(Apply(w, calls[0]), calls[1..])
  }

  class JsonWriter {
    var out: Text
    var needComma: bool

    constructor ()
      ensures State() == FRESH
    {
      out, needComma := [], false;
    }

    ghost function State(): Writer
      reads this
    {
      Writer(out, needComma)
    }

    method Separator()
      modifies this
      ensures State() == Writer(old(out) + Comma(old(needComma)), true)
    {
      if needComma {
        out := out + [COMMA];
      }
      needComma := true;
    }

    method AppendQuoted(text: Text)
      modifies this
      ensures State() == Writer(old(out) + Quoted(text), old(needComma))
    {
      var escaped := JsonEscape(text);
      out := out + [QUOTE];
      out := out + escaped;
      out := out + [QUOTE];
    }

    method ObjectBegin()
      modifies this
      ensures State() == Apply(old(State()), Call.ObjectBegin)
    {
      Separator();
      out := out + [0x7B];
      needComma := false;
    }

    method ObjectEnd()
      modifies this
      ensures State() == Apply(old(State()), Call.ObjectEnd)
    {
      out := out + [0x7D];
      needComma := true;
    }

    method ArrayBegin()
      modifies this
      ensures State() == Apply(old(State()), Call.ArrayBegin)
    {
      Separator();
      out := out + [0x5B];
      needComma := false;
    }

    method ArrayEnd()
      modifies this
      ensures State() == Apply(old(State()), Call.ArrayEnd)
    {
      out := out + [0x5D];
      needComma := true;
    }

    method FieldBegin(key: Text)
      modifies this
      ensures State() == Apply(old(State()), Call.FieldBegin(key))
    {
      Separator();
      AppendQuoted(key);
      out := out + [COLON];
      needComma := false;
    }

    method FieldText(key: Text, text: Text)
      modifies this
      ensures State() == Apply(old(State()), Call.FieldText(key, text))
    {
      FieldBegin(key);
      AppendQuoted(text);
      needComma := true;
    }

    // The overload for a pointer: a null pointer is written as the empty string.
    method FieldPointer(key: Text, text: Option<Text>)
      modifies this
      ensures State() == Apply(old(State()), Call.FieldText(key, if text.Some? then text.value else []))
    {
      FieldText(key, if text.Some? then text.value else []);
    }

    method FieldNumber(key: Text, n: Int64)
      modifies this
      ensures State() == Apply(old(State()), Call.FieldNumber(key, n))
    {
      FieldBegin(key);
      out := out + ToText(n);
      needComma := true;
    }

    method FieldBoolean(key: Text, b: bool)
      modifies this
      ensures State() == Apply(old(State()), Call.FieldBoolean(key, b))
    {
      FieldBegin(key);
      out := out + BooleanText(b);
      needComma := true;
    }

    method ValueText(text: Text)
      modifies this
      ensures State() == Apply(old(State()), Call.ValueText(text))
    {
      Separator();
      AppendQuoted(text);
    }

    method ValuePointer(text: Option<Text>)
      modifies this
      ensures State() == Apply(old(State()), Call.ValueText(if text.Some? then text.value else []))
    {
      ValueText(if text.Some? then text.value else []);
    }

    method ValueNumber(n: Int64)
      modifies this
      ensures State() == Apply(old(State()), Call.ValueNumber(n))
    {
      Separator();
      out := out + ToText(n);
    }
  }

  // ---------------------------------------------------------------------------------------------
  // A writer with a stack, as the reference: the unfinished values, innermost outermost, with what
  // each already holds. It knows which calls make sense; it never looks at the text.

  datatype Stack =
    | Root(document: Option<Json<Text>>)
    | InArray(below: Stack, items: seq<Json<Text>>)
    | InObject(below: Stack, members: seq<Member<Text>>)
    | InField(below: Stack, members: seq<Member<Text>>, key: Text)

  // May a value be written here?
  predicate TakesValue(st: Stack)
  {
    st == Root(None) || st.InArray? || st.InField?
  }

  function AddValue(st: Stack, t: Json<Text>): Stack
    requires TakesValue(st)
  {
    match st
    case Root(_) => Root(Some(t))
    case InArray(below, items) => InArray(below, items + [t])
    case InField(below, members, key) => InObject(below, members + [Member(key, t)])
  }

  // The stack after a call, or None where the call makes no sense.
  function Push(st: Stack, call: Call): Option<Stack>
  {
    match call
    case ObjectBegin => if TakesValue(st) then Some(InObject(st, [])) else None
    case ArrayBegin => if TakesValue(st) then Some(InArray(st, [])) else None
    case ObjectEnd =>
      if st.InObject? && TakesValue(st.below) then Some(AddValue(st.below, Object(st.members))) else None
    case ArrayEnd =>
      if st.InArray? && TakesValue(st.below) then Some(AddValue(st.below, Array(st.items))) else None
    case FieldBegin(key) => if st.InObject? then Some(InField(st.below, st.members, key)) else None
    case FieldText(key, text) => AddMember(st, Member(key, Str(text)))
    case FieldNumber(key, n) => AddMember(st, Member(key, Number(n)))
    case FieldBoolean(key, b) => AddMember(st, Member(key, Boolean(b)))
    case ValueText(text) => if TakesValue(st) then Some(AddValue(st, Str(text))) else None
    case ValueNumber(n) => if TakesValue(st) then Some(AddValue(st, Number(n))) else None
  }

  function AddMember(st: Stack, m: Member<Text>): Option<Stack>
  {
    if st.InObject? then Some(InObject(st.below, st.members + [m])) else None
  }

  function PushAll(st: Stack, calls: seq<Call>): Option<Stack>
    decreases |calls|
  {
    if calls == [] then Some(st)
    else match Push(st, calls[0])
      case Some(next) => PushAll(next, calls[1..])
      case None => None
  }

  // Does the innermost unfinished value already hold something?
  predicate HoldsSomething(st: Stack)
  {
    match st
    case Root(document) => document.Some?
    case InArray(_, items) => items != []
    case InObject(_, members) => members != []
    case InField(_, _, _) => false
  }

  // The text of an unfinished document.
  function Unfinished(st: Stack): Text
    decreases st, 0
  {
    match st
    case Root(document) => if document.Some? then Print(document.value) else []
    case InArray(below, items) => Opened(below) + [0x5B] + PrintItems(items)
    case InObject(below, members) => Opened(below) + [0x7B] + PrintMembers(members)
    case InField(below, members, key) =>
      Opened(below) + [0x7B] + PrintMembers(members) + Comma(members != []) + Quoted(key) + [COLON]
  }

  function Opened(st: Stack): Text
    decreases st, 1
  {
    Unfinished(st) + Comma(HoldsSomething(st))
  }

  // Everything the stack says about the two fields of the writer.
  function Expected(st: Stack): Writer
  {
    Writer(Unfinished(st), HoldsSomething(st))
  }

  lemma FirstItem(items: seq<Json<Text>>)
    requires items != []
    ensures PrintItems(items) == Print(items[0]) + if |items| == 1 then [] else [COMMA] + PrintItems(items[1..])
  {
    hide Print;
  }

  lemma NoItems()
    ensures PrintItems([]) == []
  {
  }

  lemma FirstMember(members: seq<Member<Text>>)
    requires members != []
    ensures PrintMembers(members)
            == PrintMember(members[0]) + if |members| == 1 then [] else [COMMA] + PrintMembers(members[1..])
  {
    hide PrintMember;
  }

  lemma NoMembers()
    ensures PrintMembers([]) == []
  {
  }

  lemma Regrouped(first: Text, rest: Text, comma: Text, last: Text)
    ensures first + ([COMMA] + (rest + comma + last)) == first + ([COMMA] + rest) + comma + last
    ensures first + ([COMMA] + last) == first + [COMMA] + last
    ensures first + [] == first && [] + comma + last == comma + last && [] + last == last
  {
  }

  lemma {:induction false} OneMoreItem(items: seq<Json<Text>>, t: Json<Text>)
    ensures PrintItems(items + [t]) == PrintItems(items) + Comma(items != []) + Print(t)
  {
    hide Print, PrintItems;
    var all := items + [t];
    FirstItem(all);
    if items == [] {
      assert all == [t];
      NoItems();
    } else {
      assert all[0] == items[0] && all[1..] == items[1..] + [t];
      OneMoreItem(items[1..], t);
      FirstItem(items);
      if |items| == 1 { NoItems(); }
      Regrouped(Print(items[0]), PrintItems(items[1..]), Comma(items[1..] != []), Print(t));
    }
  }

  lemma {:induction false} OneMoreMember(members: seq<Member<Text>>, m: Member<Text>)
    ensures PrintMembers(members + [m]) == PrintMembers(members) + Comma(members != []) + PrintMember(m)
  {
    hide PrintMember, PrintMembers;
    var all := members + [m];
    FirstMember(all);
    if members == [] {
      assert all == [m];
      NoMembers();
    } else {
      assert all[0] == members[0] && all[1..] == members[1..] + [m];
      OneMoreMember(members[1..], m);
      FirstMember(members);
      if |members| == 1 { NoMembers(); }
      Regrouped(PrintMember(members[0]), PrintMembers(members[1..]), Comma(members[1..] != []), PrintMember(m));
    }
  }

  lemma Regroup(open: Text, written: Text, comma: Text, key: Text, value: Text)
    ensures open + (written + comma + (key + [COLON] + value)) == open + written + comma + key + [COLON] + value
    ensures open + (written + comma + value) == open + written + comma + value
  {
  }

  // Writing a whole value where one may stand, comma included, is adding it to the stack.
  lemma ValueExtends(st: Stack, t: Json<Text>)
    requires TakesValue(st)
    ensures Expected(AddValue(st, t)) == Writer(Opened(st) + Print(t), true)
  {
    match st
    case Root(_) =>
    case InArray(below, items) =>
      OneMoreItem(items, t);
      Regroup(Opened(below) + [0x5B], PrintItems(items), Comma(items != []), [], Print(t));
    case InField(below, members, key) =>
      var m := Member(key, t);
      OneMoreMember(members, m);
      assert PrintMember(m) == Quoted(key) + [COLON] + Print(t);
      Regroup(Opened(below) + [0x7B], PrintMembers(members), Comma(members != []), Quoted(key), Print(t));
      assert Opened(st) == Unfinished(st);
  }

  lemma MemberExtends(st: Stack, m: Member<Text>)
    requires st.InObject?
    ensures Expected(AddMember(st, m).value) == Writer(Keyed(Expected(st), m.key).out + Print(m.value), true)
  {
    var members := st.members;
    OneMoreMember(members, m);
    assert PrintMember(m) == Quoted(m.key) + [COLON] + Print(m.value);
    Regroup(Opened(st.below) + [0x7B], PrintMembers(members), Comma(members != []), Quoted(m.key), Print(m.value));
  }

  lemma OpeningFollowsStack(st: Stack, call: Call)
    requires Push(st, call).Some? && (call.ObjectBegin? || call.ArrayBegin?)
    ensures Apply(Expected(st), call) == Expected(Push(st, call).value)
  {
    assert Opened(st) + [0x7B] + PrintMembers([]) == Opened(st) + [0x7B];
    assert Opened(st) + [0x5B] + PrintItems([]) == Opened(st) + [0x5B];
  }

  lemma ClosingFollowsStack(st: Stack, call: Call)
    requires Push(st, call).Some? && (call.ObjectEnd? || call.ArrayEnd?)
    ensures Apply(Expected(st), call) == Expected(Push(st, call).value)
  {
    hide AddValue, Print, Unfinished, Opened, HoldsSomething;
    ValueExtends(st.below, if call.ObjectEnd? then Object(st.members) else Array(st.items));
    ClosedText(st);
  }

  lemma ClosedText(st: Stack)
    ensures st.InObject? ==> Unfinished(st) + [0x7D] == Opened(st.below) + Print(Object(st.members))
    ensures st.InArray? ==> Unfinished(st) + [0x5D] == Opened(st.below) + Print(Array(st.items))
  {
    hide Opened, PrintMembers, PrintItems;
  }

  lemma FieldFollowsStack(st: Stack, call: Call)
    requires Push(st, call).Some? && (call.FieldText? || call.FieldNumber? || call.FieldBoolean?)
    ensures Apply(Expected(st), call) == Expected(Push(st, call).value)
  {
    var value := match call
      case FieldText(_, text) => Str(text)
      case FieldNumber(_, n) => Number(n)
      case FieldBoolean(_, b) => Boolean(b);
    MemberExtends(st, Member(call.key, value));
  }

  // One call keeps the flag and the text in step with the stack.
  lemma CallFollowsStack(st: Stack, call: Call)
    requires Push(st, call).Some?
    ensures Apply(Expected(st), call) == Expected(Push(st, call).value)
  {
    match call
    case ObjectBegin => OpeningFollowsStack(st, call);
    case ArrayBegin => OpeningFollowsStack(st, call);
    case ObjectEnd => ClosingFollowsStack(st, call);
    case ArrayEnd => ClosingFollowsStack(st, call);
    case FieldBegin(key) =>
    case FieldText(key, text) => FieldFollowsStack(st, call);
    case FieldNumber(key, n) => FieldFollowsStack(st, call);
    case FieldBoolean(key, b) => FieldFollowsStack(st, call);
    case ValueText(text) => ValueExtends(st, Str(text));
    case ValueNumber(n) => ValueExtends(st, Number(n));
  }

  // The one flag does the work of the whole stack, after every sensible sequence of calls.
  lemma {:induction false} FlagRefinesStack(st: Stack, calls: seq<Call>)
    requires PushAll(st, calls).Some?
    ensures Run(Expected(st), calls) == Expected(PushAll(st, calls).value)
    decreases |calls|
  {
    if calls != [] {
      CallFollowsStack(st, calls[0]);
      FlagRefinesStack(Push(st, calls[0]).value, calls[1..]);
    }
  }

  // Any sensible sequence of calls that finishes a document leaves text that an RFC 8259 reader
  // takes back as that document.
  lemma FinishedDocumentIsRead(calls: seq<Call>, t: Json<Text>)
    requires PushAll(Root(None), calls) == Some(Root(Some(t)))
    ensures Run(FRESH, calls).out == Print(t)
    ensures ReadDocument(Run(FRESH, calls).out) == Some(Meaning(t))
  {
    FlagRefinesStack(Root(None), calls);
    DocumentIsRead(t);
  }

  // ---------------------------------------------------------------------------------------------
  // Walking a tree through the writer's calls.

  // The trees the calls can express: no overload writes a Boolean as an array item or a document.
  predicate Writable(t: Json<Text>)
    decreases t, 1
  {
    match t
    case Object(members) => MembersWritable(members)
    case Array(items) => ItemsWritable(items)
    case _ => true
  }

  predicate ItemsWritable(items: seq<Json<Text>>)
    decreases items, 0
  {
    items == [] || (!items[0].Boolean? && Writable(items[0]) && ItemsWritable(items[1..]))
  }

  predicate MemberWritable(m: Member<Text>)
    decreases m, 2
  {
    Writable(m.value)
  }

  predicate MembersWritable(members: seq<Member<Text>>)
    decreases members, 0
  {
    members == [] || (MemberWritable(members[0]) && MembersWritable(members[1..]))
  }

  function Walk(t: Json<Text>): seq<Call>
    requires Writable(t) && !t.Boolean?
    decreases t, 1
  {
    match t
    case Object(members) => [ObjectBegin] + WalkMembers(members) + [ObjectEnd]
    case Array(items) => [ArrayBegin] + WalkItems(items) + [ArrayEnd]
    case Str(text) => [ValueText(text)]
    case Number(n) => [ValueNumber(n)]
  }

  function WalkItems(items: seq<Json<Text>>): seq<Call>
    requires ItemsWritable(items)
    decreases items, 0
  {
    if items == [] then [] else Walk(items[0]) + WalkItems(items[1..])
  }

  function WalkMember(m: Member<Text>): seq<Call>
    requires MemberWritable(m)
    decreases m, 2
  {
    match m.value
    case Str(text) => [FieldText(m.key, text)]
    case Number(n) => [FieldNumber(m.key, n)]
    case Boolean(b) => [FieldBoolean(m.key, b)]
    case _ => [FieldBegin(m.key)] + Walk(m.value)
  }

  function WalkMembers(members: seq<Member<Text>>): seq<Call>
    requires MembersWritable(members)
    decreases members, 0
  {
    if members == [] then [] else WalkMember(members[0]) + WalkMembers(members[1..])
  }

  lemma {:induction false} PushAllConcat(st: Stack, a: seq<Call>, b: seq<Call>)
    requires PushAll(st, a).Some?
    ensures PushAll(st, a + b) == PushAll(PushAll(st, a).value, b)
    decreases |a|
  {
    if a == [] {
      assert a + b == b;
    } else {
      assert (a + b)[0] == a[0] && (a + b)[1..] == a[1..] + b;
      PushAllConcat(Push(st, a[0]).value, a[1..], b);
    }
  }

  lemma {:induction false} WalkBuilds(st: Stack, t: Json<Text>)
    requires TakesValue(st) && Writable(t) && !t.Boolean?
    ensures PushAll(st, Walk(t)) == Some(AddValue(st, t))
    decreases t, 1
  {
    hide WalkMembers, WalkItems, AddValue, Push, PushAll;
    match t
    case Object(members) =>
      WalkMembersBuilds(st, [], members);
      assert [] + members == members;
      ObjectBuilds(st, members);
    case Array(items) =>
      WalkItemsBuilds(st, [], items);
      assert [] + items == items;
      ArrayBuilds(st, items);
    case Str(text) =>
      ScalarBuilds(st, ValueText(text));
    case Number(n) =>
      ScalarBuilds(st, ValueNumber(n));
  }

  lemma ScalarBuilds(st: Stack, call: Call)
    requires TakesValue(st) && (call.ValueText? || call.ValueNumber?)
    ensures PushAll(st, [call]) == Some(AddValue(st, if call.ValueText? then Str(call.text) else Number(call.n)))
  {
    hide AddValue;
    OneCall(st, call);
  }

  lemma ObjectBuilds(st: Stack, members: seq<Member<Text>>)
    requires TakesValue(st) && MembersWritable(members)
    requires PushAll(InObject(st, []), WalkMembers(members)) == Some(InObject(st, members))
    ensures PushAll(st, [ObjectBegin] + WalkMembers(members) + [ObjectEnd]) == Some(AddValue(st, Object(members)))
  {
    hide WalkMembers, AddValue, MembersWritable;
    var inner := WalkMembers(members);
    var calls := [ObjectBegin] + inner + [ObjectEnd];
    PushAllConcat(InObject(st, []), inner, [ObjectEnd]);
    OneCall(InObject(st, members), ObjectEnd);
    assert calls[0] == ObjectBegin && calls[1..] == inner + [ObjectEnd];
  }

  lemma ArrayBuilds(st: Stack, items: seq<Json<Text>>)
    requires TakesValue(st) && ItemsWritable(items)
    requires PushAll(InArray(st, []), WalkItems(items)) == Some(InArray(st, items))
    ensures PushAll(st, [ArrayBegin] + WalkItems(items) + [ArrayEnd]) == Some(AddValue(st, Array(items)))
  {
    hide WalkItems, AddValue, ItemsWritable;
    var inner := WalkItems(items);
    var calls := [ArrayBegin] + inner + [ArrayEnd];
    PushAllConcat(InArray(st, []), inner, [ArrayEnd]);
    OneCall(InArray(st, items), ArrayEnd);
    assert calls[0] == ArrayBegin && calls[1..] == inner + [ArrayEnd];
  }

  lemma OneCall(st: Stack, call: Call)
    ensures PushAll(st, [call]) == Push(st, call)
  {
    assert [call][1..] == [];
  }

  lemma {:induction false} WalkItemsBuilds(below: Stack, done: seq<Json<Text>>, items: seq<Json<Text>>)
    requires ItemsWritable(items)
    ensures PushAll(InArray(below, done), WalkItems(items)) == Some(InArray(below, done + items))
    decreases items, 0
  {
    if items == [] {
      assert done + items == done;
    } else {
      WalkBuilds(InArray(below, done), items[0]);
      WalkItemsBuilds(below, done + [items[0]], items[1..]);
      PushAllConcat(InArray(below, done), Walk(items[0]), WalkItems(items[1..]));
      assert done + [items[0]] + items[1..] == done + items;
    }
  }

  lemma {:induction false} WalkMemberBuilds(below: Stack, done: seq<Member<Text>>, m: Member<Text>)
    requires MemberWritable(m)
    ensures PushAll(InObject(below, done), WalkMember(m)) == Some(InObject(below, done + [m]))
    decreases m, 2
  {
    if m.value.Object? || m.value.Array? {
      WalkBuilds(InField(below, done, m.key), m.value);
      assert WalkMember(m)[1..] == Walk(m.value);
    } else {
      OneCall(InObject(below, done), WalkMember(m)[0]);
    }
  }

  lemma {:induction false} WalkMembersBuilds(below: Stack, done: seq<Member<Text>>, members: seq<Member<Text>>)
    requires MembersWritable(members)
    ensures PushAll(InObject(below, done), WalkMembers(members)) == Some(InObject(below, done + members))
    decreases members, 0
  {
    if members == [] {
      assert done + members == done;
    } else {
      WalkMemberBuilds(below, done, members[0]);
      WalkMembersBuilds(below, done + [members[0]], members[1..]);
      PushAllConcat(InObject(below, done), WalkMember(members[0]), WalkMembers(members[1..]));
      assert done + [members[0]] + members[1..] == done + members;
    }
  }

  // Walking any tree, at any depth, writes its serialisation, and a reader gets the tree back.
  lemma WalkedTreeIsRead(t: Json<Text>)
    requires Writable(t) && !t.Boolean?
    ensures Run(FRESH, Walk(t)) == Writer(Print(t), true)
    ensures ReadDocument(Run(FRESH, Walk(t)).out) == Some(Meaning(t))
  {
    WalkBuilds(Root(None), t);
    FlagRefinesStack(Root(None), Walk(t));
    FinishedDocumentIsRead(Walk(t), t);
  }

  // Two trees that come out as the same text mean the same.
  lemma TextDeterminesMeaning(t: Json<Text>, u: Json<Text>)
    requires Print(t) == Print(u)
    ensures Meaning(t) == Meaning(u)
  {
    DocumentIsRead(t);
    DocumentIsRead(u);
  }
}

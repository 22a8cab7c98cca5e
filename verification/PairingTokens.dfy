// PairingTokens: a few single-use tokens, and the text file they are kept in.
module Pairing {
  import opened Machine
  import Bits

  const TOKEN_BYTES: nat := 32
  const MAX_TOKENS: nat := 4
  const MAX_FILE_BYTES: nat := 4096
  const MAX_LINE_BYTES: nat := 96

  type Token = t: Text | |t| == 32 witness seq(32, _ => 0)

  datatype Issued = Issued(token: Token, expires: Int64)

  type Store = seq<Issued>

  predicate IsZero(t: Token)
  {
    forall i | 0 <= i < |t| :: t[i] == 0
  }

  // ---------------------------------------------------------------------------------------------
  // The operations on values.

  // What is left at this time.
  function Live(s: Store, now: Int64): (r: Store)
    ensures |r| <= |s|
  {
    if s == [] then []
    else if s[0].expires <= now then Live(s[1..], now)
    else [s[0]] + Live(s[1..], now)
  }

  predicate Has(s: Store, t: Token)
  {
    exists i :: 0 <= i < |s| && s[i].token == t
  }

  // The first of the tokens that expire soonest.
  function Soonest(s: Store): (k: nat)
    requires s != []
    ensures k < |s|
    ensures forall i | 0 <= i < |s| :: s[k].expires <= s[i].expires
    ensures forall i | 0 <= i < k :: s[k].expires < s[i].expires
  {
    if |s| == 1 then 0
    else
      var k := Soonest(s[..|s| - 1]);
      if s[|s| - 1].expires < s[k].expires then |s| - 1 else k
  }

  function Without(s: Store, k: nat): (r: Store)
    requires k < |s|
    ensures |r| == |s| - 1
    ensures forall i | 0 <= i < |r| :: r[i] == s[if i < k then i else i + 1]
  {
    s[..k] + s[k + 1..]
  }

  // The store after a token is issued, or None where it is refused (the store is then just Live).
  function WithToken(s: Store, t: Token, expires: Int64, now: Int64): Option<Store>
  {
    var live := Live(s, now);
    if IsZero(t) || expires <= now || Has(live, t) then None
    else
      Some((if |live| >= MAX_TOKENS then Without(live, Soonest(live)) else live) + [Issued(t, expires)])
  }

  // The last slot that holds the token, or |s|.
  function Match(s: Store, t: Token): (k: nat)
    ensures k <= |s|
    ensures k < |s| ==> s[k].token == t
    ensures k == |s| <==> !Has(s, t)
  {
    if s == [] then 0
    else if s[|s| - 1].token == t then |s| - 1
    else
      var front := s[..|s| - 1];
      assert forall i | 0 <= i < |front| :: front[i] == s[i];
      var k := Match(front, t);
      if k == |front| then |s| else k
  }

  // The slot Match finds among the first i, or |s|.
  ghost function MatchedSoFar(s: Store, t: Token, i: nat): nat
    requires i <= |s|
  {
    var k := Match(s[..i], t);
    if k == i then |s| else k
  }

  lemma MatchOneMore(s: Store, t: Token, i: nat)
    requires i < |s|
    ensures MatchedSoFar(s, t, i + 1) == if s[i].token == t then i else MatchedSoFar(s, t, i)
  {
    hide Has;
    assert s[..i + 1][..i] == s[..i];
  }

  lemma MatchedAtTheEnds(s: Store, t: Token)
    ensures MatchedSoFar(s, t, 0) == |s|
    ensures MatchedSoFar(s, t, |s|) == Match(s, t)
  {
    assert s[..|s|] == s;
  }

  // The store after a token is consumed, or None where nothing matches.
  function WithoutToken(s: Store, presented: Text, now: Int64): Option<Store>
  {
    var live := Live(s, now);
    if |presented| != TOKEN_BYTES then None
    else
      var k := Match(live, presented);
      if k == |live| then None else Some(Without(live, k))
  }

  // ---------------------------------------------------------------------------------------------
  // The comparison without branches.

  // The bits in which the first n bytes of a and b differ anywhere.
  function Differing(a: Text, b: Text, n: nat): nat
    requires n <= |a| && n <= |b|
  {
    if n == 0 then 0 else Bits.Or(Differing(a, b, n - 1), Bits.Xor(a[n - 1], b[n - 1]))
  }

  lemma {:induction false} NothingDiffersIffEqual(a: Text, b: Text, n: nat)
    requires n <= |a| && n <= |b|
    ensures Differing(a, b, n) == 0 <==> a[..n] == b[..n]
  {
    if n > 0 {
      NothingDiffersIffEqual(a, b, n - 1);
      Bits.XorIsZeroIffEqual(a[n - 1], b[n - 1]);
      Bits.OrIsZeroIffBothAre(Differing(a, b, n - 1), Bits.Xor(a[n - 1], b[n - 1]));
      assert a[..n] == a[..n - 1] + [a[n - 1]] && b[..n] == b[..n - 1] + [b[n - 1]];
    }
  }

  method ConstantTimeDifference(a: Text, b: Token) returns (difference: nat)
    requires |a| == |b|
    ensures difference == 0 <==> a == b
  {
    difference := 0;
    var i := 0;
    while i < |b|
      invariant 0 <= i <= |b| && difference == Differing(a, b, i)
    {
      difference := Bits.Or(difference, Bits.Xor(a[i], b[i]));
      i := i + 1;
    }
    NothingDiffersIffEqual(a, b, |b|);
    assert a[..|b|] == a && b[..|b|] == b;
  }

  class PairingTokens {
    var tokens: Store

    constructor ()
      ensures tokens == []
    {
      tokens := [];
    }

    method Issue(t: Token, expires: Int64, now: Int64) returns (issued: bool)
      modifies this
      ensures var r := WithToken(old(tokens), t, expires, now);
              issued == r.Some? && tokens == if issued then r.value else Live(old(tokens), now)
    {
      var _ := Expire(now);
      if IsZero(t) || expires <= now {
        return false;
      }
      var i := 0;
      while i < |tokens|
        invariant 0 <= i <= |tokens|
        invariant forall j | 0 <= j < i :: tokens[j].token != t
        invariant tokens == Live(old(tokens), now)
      {
        if tokens[i].token == t {
          return false;
        }
        i := i + 1;
      }
      if |tokens| >= MAX_TOKENS {
        tokens := Without(tokens, Soonest(tokens));
      }
      tokens := tokens + [Issued(t, expires)];
      return true;
    }

    method Consume(presented: Text, now: Int64) returns (accepted: bool)
      modifies this
      ensures var r := WithoutToken(old(tokens), presented, now);
              accepted == r.Some? && tokens == if accepted then r.value else Live(old(tokens), now)
    {
      hide Live, Match, MatchedSoFar, Has;
      var _ := Expire(now);
      if |presented| != TOKEN_BYTES {
        return false;
      }
      MatchedAtTheEnds(tokens, presented);
      var matched := |tokens|;
      var i := 0;
      while i < |tokens|
        invariant 0 <= i <= |tokens| && tokens == Live(old(tokens), now)
        invariant matched == MatchedSoFar(tokens, presented, i)
      {
        var difference := ConstantTimeDifference(presented, tokens[i].token);
        var same := if difference == 0 then 1 else 0;
        matched := same * i + (1 - same) * matched;
        MatchOneMore(tokens, presented, i);
        i := i + 1;
      }
      if matched == |tokens| {
        return false;
      }
      tokens := Without(tokens, matched);
      return true;
    }

    method Expire(now: Int64) returns (dropped: nat)
      modifies this
      ensures tokens == Live(old(tokens), now)
      ensures dropped == |old(tokens)| - |tokens|
    {
      var before := |tokens|;
      tokens := Live(tokens, now);
      dropped := before - |tokens|;
    }

    method Clear()
      modifies this
      ensures tokens == []
    {
      tokens := [];
    }
  }

  // ---------------------------------------------------------------------------------------------
  // What every operation keeps.

  ghost predicate Sound(s: Store)
  {
    && |s| <= MAX_TOKENS
    && (forall i | 0 <= i < |s| :: !IsZero(s[i].token))
    && (forall i, j | 0 <= i < j < |s| :: s[i].token != s[j].token)
  }

  ghost predicate AllLive(s: Store, now: Int64)
  {
    forall i | 0 <= i < |s| :: s[i].expires > now
  }

  lemma {:induction false} LiveMembers(s: Store, now: Int64)
    ensures forall x :: x in Live(s, now) <==> x in s && x.expires > now
  {
    if s != [] {
      LiveMembers(s[1..], now);
      assert s == [s[0]] + s[1..];
    }
  }

  // What has expired goes, and the rest stays in its order.
  lemma {:induction false} LiveOfParts(a: Store, b: Store, now: Int64)
    ensures Live(a + b, now) == Live(a, now) + Live(b, now)
  {
    if a == [] {
      assert a + b == b;
    } else {
      assert (a + b)[0] == a[0] && (a + b)[1..] == a[1..] + b;
      LiveOfParts(a[1..], b, now);
    }
  }

  lemma HasMember(s: Store, t: Token)
    ensures Has(s, t) <==> exists x :: x in s && x.token == t
  {
    if x :| x in s && x.token == t {
      var i :| 0 <= i < |s| && s[i] == x;
      assert s[i].token == t;
    }
  }

  lemma HasLive(s: Store, now: Int64, t: Token)
    ensures Has(Live(s, now), t) ==> Has(s, t)
  {
    LiveMembers(s, now);
    HasMember(s, t);
    HasMember(Live(s, now), t);
  }

  lemma SoundParts(x: Issued, rest: Store)
    ensures Sound([x] + rest) ==> Sound(rest) && !Has(rest, x.token)
    ensures Sound(rest) && |rest| < MAX_TOKENS && !IsZero(x.token) && !Has(rest, x.token) ==>
              Sound([x] + rest) && Sound(rest + [x])
  {
    hide IsZero;
    var s := [x] + rest;
    assert s[0] == x && forall i | 0 <= i < |rest| :: s[i + 1] == rest[i];
  }

  lemma {:induction false} LiveIsSound(s: Store, now: Int64)
    requires Sound(s)
    ensures Sound(Live(s, now))
  {
    hide Sound, Has, IsZero;
    if s != [] {
      var rest := s[1..];
      assert s == [s[0]] + rest;
      SoundParts(s[0], rest);
      LiveIsSound(rest, now);
      HasLive(rest, now, s[0].token);
      SoundInShort(s);
      SoundParts(s[0], Live(rest, now));
    }
  }

  lemma SoundInShort(s: Store)
    requires Sound(s)
    ensures |s| <= MAX_TOKENS && forall i | 0 <= i < |s| :: !IsZero(s[i].token)
  {
  }

  lemma {:induction false} LiveKeepsLive(s: Store, now: Int64)
    requires AllLive(s, now)
    ensures Live(s, now) == s
  {
    if s != [] {
      assert s == [s[0]] + s[1..] && s[0].expires > now;
      LiveKeepsLive(s[1..], now);
    }
  }

  lemma WithoutIsSound(s: Store, k: nat)
    requires k < |s| && Sound(s)
    ensures Sound(Without(s, k))
  {
  }

  lemma IssueKeepsSound(s: Store, t: Token, expires: Int64, now: Int64)
    requires Sound(s) && WithToken(s, t, expires, now).Some?
    ensures Sound(WithToken(s, t, expires, now).value)
  {
    hide Sound, Has, IsZero, Soonest;
    LiveIsSound(s, now);
    var live := Live(s, now);
    SoundInShort(live);
    if |live| >= MAX_TOKENS {
      WithoutIsSound(live, Soonest(live));
      WithoutForgetsOne(live, Soonest(live), t);
      SoundParts(Issued(t, expires), Without(live, Soonest(live)));
    } else {
      SoundParts(Issued(t, expires), live);
    }
  }

  lemma ConsumeKeepsSound(s: Store, presented: Text, now: Int64)
    requires Sound(s) && WithoutToken(s, presented, now).Some?
    ensures Sound(WithoutToken(s, presented, now).value)
  {
    LiveIsSound(s, now);
    WithoutIsSound(Live(s, now), Match(Live(s, now), presented));
  }

  // A full store makes room by giving up one token, and only one that expires soonest.
  lemma OnlyTheSoonestMakesRoom(s: Store, t: Token, expires: Int64, now: Int64, x: Issued)
    requires WithToken(s, t, expires, now).Some? && x in Live(s, now)
    requires x !in WithToken(s, t, expires, now).value
    ensures |Live(s, now)| >= 4
    ensures forall y | y in Live(s, now) :: x.expires <= y.expires
    ensures forall y | y in Live(s, now) && y != x :: y in WithToken(s, t, expires, now).value
  {
    hide Live, Has, IsZero, Soonest;
    var live, r := Live(s, now), WithToken(s, t, expires, now).value;
    var j :| 0 <= j < |live| && live[j] == x;
    var kept := r[..|r| - 1];
    assert forall y | y in kept :: y in r;
    assert |live| < MAX_TOKENS ==> kept == live;
    if |live| >= MAX_TOKENS {
      OthersStay(live, Soonest(live));
    }
  }

  lemma OthersStay(s: Store, k: nat)
    requires k < |s|
    ensures forall i | 0 <= i < |s| && i != k :: s[i] in Without(s, k)
  {
    forall i | 0 <= i < |s| && i != k ensures s[i] in Without(s, k) {
      assert Without(s, k)[if i < k then i else i - 1] == s[i];
    }
  }

  datatype Op =
    | Issue(token: Token, expires: Int64, now: Int64)
    | Consume(presented: Text, now: Int64)
    | Expire(now: Int64)
    | Clear

  predicate Succeeds(s: Store, op: Op)
  {
    match op
    case Issue(t, expires, now) => WithToken(s, t, expires, now).Some?
    case Consume(presented, now) => WithoutToken(s, presented, now).Some?
    case _ => true
  }

  function After(s: Store, op: Op): Store
  {
    match op
    case Issue(t, expires, now) =>
      if Succeeds(s, op) then WithToken(s, t, expires, now).value else Live(s, now)
    case Consume(presented, now) =>
      if Succeeds(s, op) then WithoutToken(s, presented, now).value else Live(s, now)
    case Expire(now) => Live(s, now)
    case Clear => []
  }

  function Run(ops: seq<Op>): Store
  {
    if ops == [] then [] else After(Run(ops[..|ops| - 1]), ops[|ops| - 1])
  }

  lemma {:induction false} RunIsSound(ops: seq<Op>)
    ensures Sound(Run(ops))
  {
    hide Sound, Live;
    if ops == [] {
      EmptyIsSound();
    } else {
      RunIsSound(ops[..|ops| - 1]);
      AfterIsSound(Run(ops[..|ops| - 1]), ops[|ops| - 1]);
    }
  }

  lemma EmptyIsSound()
    ensures Sound([])
  {
  }

  lemma AfterIsSound(s: Store, op: Op)
    requires Sound(s)
    ensures Sound(After(s, op))
  {
    hide Sound, Live, WithToken, WithoutToken;
    match op
    case Issue(t, expires, now) =>
      LiveIsSound(s, now);
      if Succeeds(s, op) { IssueKeepsSound(s, t, expires, now); }
    case Consume(presented, now) =>
      LiveIsSound(s, now);
      if Succeeds(s, op) { ConsumeKeepsSound(s, presented, now); }
    case Expire(now) =>
      LiveIsSound(s, now);
    case Clear =>
      EmptyIsSound();
  }

  // How often in a run the token was issued, and how often it was accepted.
  function TimesIssued(ops: seq<Op>, t: Token): nat
  {
    if ops == [] then 0
    else
      var front, op := ops[..|ops| - 1], ops[|ops| - 1];
      TimesIssued(front, t) + if op.Issue? && op.token == t && Succeeds(Run(front), op) then 1 else 0
  }

  function TimesAccepted(ops: seq<Op>, t: Token): nat
  {
    if ops == [] then 0
    else
      var front, op := ops[..|ops| - 1], ops[|ops| - 1];
      TimesAccepted(front, t) + if op.Consume? && op.presented == t && Succeeds(Run(front), op) then 1 else 0
  }

  lemma WithoutForgetsOne(s: Store, k: nat, t: Token)
    requires Sound(s) && k < |s|
    ensures Has(Without(s, k), t) <==> Has(s, t) && s[k].token != t
  {
    var r := Without(s, k);
    if Has(s, t) && s[k].token != t {
      var i :| 0 <= i < |s| && s[i].token == t;
      assert r[if i < k then i else i - 1].token == t;
    }
  }

  // A token is accepted at most as often as it was issued, over every run; one that is still in the
  // store has an acceptance to spare.
  lemma {:induction false} AcceptedAtMostAsOftenAsIssued(ops: seq<Op>, t: Token)
    ensures TimesAccepted(ops, t) + (if Has(Run(ops), t) then 1 else 0) <= TimesIssued(ops, t)
  {
    if ops != [] {
      var front, op := ops[..|ops| - 1], ops[|ops| - 1];
      var s := Run(front);
      AcceptedAtMostAsOftenAsIssued(front, t);
      RunIsSound(front);
      OpAccounts(s, op, t);
    }
  }

  // One operation, from a sound store: what it can do to the presence of a token.
  lemma OpAccounts(s: Store, op: Op, t: Token)
    requires Sound(s)
    ensures Has(After(s, op), t) ==> Has(s, t) || (op.Issue? && op.token == t && Succeeds(s, op))
    ensures op.Consume? && op.presented == t && Succeeds(s, op) ==> Has(s, t) && !Has(After(s, op), t)
    ensures op.Issue? && op.token == t && Succeeds(s, op) ==> Has(After(s, op), t)
  {
    match op
    case Clear =>
    case Expire(now) =>
      HasLive(s, now, t);
    case Consume(presented, now) =>
      HasLive(s, now, t);
      LiveIsSound(s, now);
      if Succeeds(s, op) { WithoutForgetsOne(Live(s, now), Match(Live(s, now), presented), t); }
    case Issue(u, expires, now) =>
      HasLive(s, now, t);
      LiveIsSound(s, now);
      if Succeeds(s, op) { PushedTokens(s, u, expires, now, t); }
  }

  lemma PushedTokens(s: Store, u: Token, expires: Int64, now: Int64, t: Token)
    requires Sound(Live(s, now)) && WithToken(s, u, expires, now).Some?
    ensures Has(WithToken(s, u, expires, now).value, t) ==> t == u || Has(Live(s, now), t)
    ensures Has(WithToken(s, u, expires, now).value, u)
  {
    var live, r := Live(s, now), WithToken(s, u, expires, now).value;
    if |live| >= MAX_TOKENS { WithoutForgetsOne(live, Soonest(live), t); }
    var kept := r[..|r| - 1];
    assert r[|r| - 1].token == u;
    if Has(r, t) && t != u {
      var i :| 0 <= i < |r| && r[i].token == t;
      assert kept[i].token == t;
    }
  }

  // Operation k of the run did issue the token, and no later one did again.
  ghost predicate IssuedAt(ops: seq<Op>, k: nat, t: Token)
    requires k < |ops|
  {
    ops[k].Issue? && ops[k].token == t && Succeeds(Run(ops[..k]), ops[k])
  }

  ghost predicate LastIssue(ops: seq<Op>, i: nat, t: Token)
    requires i < |ops|
  {
    IssuedAt(ops, i, t) && forall k | i < k < |ops| :: !IssuedAt(ops, k, t)
  }

  // What an operation leaves in the store is the token it issues, or was there and is not that token.
  lemma KeptOrIssued(s: Store, op: Op, x: Issued)
    requires x in After(s, op)
    ensures if op.Issue? && Succeeds(s, op) && op.token == x.token then x.expires == op.expires else x in s
  {
    hide Soonest, IsZero;
    if !op.Clear? {
      LiveMembers(s, op.now);
      HasMember(Live(s, op.now), x.token);
    }
  }

  // Every token in the store has there the expiry of its last issue.
  lemma {:induction false} StoredWasIssued(ops: seq<Op>, x: Issued)
    requires x in Run(ops)
    ensures exists i :: 0 <= i < |ops| && LastIssue(ops, i, x.token) && ops[i].expires == x.expires
  {
    hide After, Succeeds;
    var front, op := ops[..|ops| - 1], ops[|ops| - 1];
    KeptOrIssued(Run(front), op, x);
    if IssuedAt(ops, |front|, x.token) {
      assert LastIssue(ops, |front|, x.token);
    } else {
      StoredWasIssued(front, x);
      var i :| 0 <= i < |front| && LastIssue(front, i, x.token) && front[i].expires == x.expires;
      IssuesBefore(ops, x.token);
      assert LastIssue(ops, i, x.token);
    }
  }

  lemma IssuesBefore(ops: seq<Op>, t: Token)
    requires ops != []
    ensures forall k | 0 <= k < |ops| - 1 :: IssuedAt(ops, k, t) == IssuedAt(ops[..|ops| - 1], k, t)
  {
    hide Run, Succeeds;
    var front := ops[..|ops| - 1];
    forall k | 0 <= k < |front| ensures IssuedAt(ops, k, t) == IssuedAt(front, k, t) {
      assert front[k] == ops[k] && front[..k] == ops[..k];
    }
  }

  // And it is accepted only before that: the expiry of its last issue, not of an earlier one.
  lemma AcceptedOnlyBeforeExpiry(ops: seq<Op>, t: Token, now: Int64)
    requires Succeeds(Run(ops), Consume(t, now))
    ensures exists i :: 0 <= i < |ops| && LastIssue(ops, i, t) && now < ops[i].expires
  {
    var s := Run(ops);
    LiveMembers(s, now);
    var x := Live(s, now)[Match(Live(s, now), t)];
    assert x in s && x.expires > now;
    StoredWasIssued(ops, x);
  }

  // ---------------------------------------------------------------------------------------------
  // What is granted: an issue and an acceptance succeed whenever they should.

  // A token is accepted exactly while it is stored and its time lies ahead.
  lemma AcceptedIffStored(s: Store, t: Text, now: Int64)
    ensures Succeeds(s, Consume(t, now)) <==> |t| == 32 && exists x :: x in s && x.token == t && x.expires > now
  {
    if |t| == 32 {
      LiveMembers(s, now);
      HasMember(Live(s, now), t);
    }
  }

  // A token is issued exactly when it is not zero, its time lies ahead and it is not there already; then it
  // stands behind the others.
  lemma IssuedIff(s: Store, t: Token, expires: Int64, now: Int64)
    ensures Succeeds(s, Issue(t, expires, now)) <==>
              && (exists i :: 0 <= i < 32 && t[i] != 0) && expires > now
              && !(exists x :: x in s && x.token == t && x.expires > now)
    ensures Succeeds(s, Issue(t, expires, now)) ==>
              var r := After(s, Issue(t, expires, now));
              r != [] && r[|r| - 1] == Issued(t, expires)
  {
    LiveMembers(s, now);
    HasMember(Live(s, now), t);
    assert IsZero(t) <==> !(exists i :: 0 <= i < 32 && t[i] != 0);
  }

  // A full store gives up a token for a new one: the first of those that expire soonest.
  ghost predicate GivesWay(s: Store, x: Issued, now: Int64)
  {
    && |s| == 4 && (forall i | 0 <= i < 4 :: s[i].expires > now)
    && exists j :: 0 <= j < 4 && s[j] == x
                   && (forall i | 0 <= i < 4 :: x.expires <= s[i].expires)
                   && (forall i | 0 <= i < j :: x.expires < s[i].expires)
  }

  // What ends the life of a stored token: its time, its acceptance, clearing, or giving way.
  ghost predicate Ends(s: Store, op: Op, x: Issued)
  {
    match op
    case Clear => true
    case Expire(now) => x.expires <= now
    case Consume(presented, now) => x.expires <= now || presented == x.token
    case Issue(t, expires, now) => x.expires <= now || (Succeeds(s, op) && GivesWay(s, x, now))
  }

  // Nothing has ended it since operation i.
  ghost predicate LivesOn(ops: seq<Op>, i: nat, x: Issued)
  {
    forall k | i < k < |ops| :: !Ends(Run(ops[..k]), ops[k], x)
  }

  lemma SameToken(s: Store, i: nat, j: nat)
    requires Sound(s) && i < |s| && j < |s| && s[i].token == s[j].token
    ensures i == j
  {
  }

  // One operation that does not issue the token itself takes it out of a sound store exactly when it ends it.
  lemma StaysUnlessEnded(s: Store, op: Op, x: Issued)
    requires Sound(s) && !(op.Issue? && op.token == x.token && Succeeds(s, op))
    ensures x in After(s, op) <==> x in s && !Ends(s, op, x)
  {
    hide Sound, IsZero, Has;
    if !op.Clear? {
      LiveMembers(s, op.now);
      LiveIsSound(s, op.now);
      match op
      case Expire(now) =>
      case Consume(presented, now) => ConsumeTakesOne(s, presented, now, x);
      case Issue(t, expires, now) => IssuePushesOne(s, t, expires, now, x);
    }
  }

  lemma ConsumeTakesOne(s: Store, presented: Text, now: Int64, x: Issued)
    requires Sound(s) && Sound(Live(s, now))
    ensures x in After(s, Consume(presented, now)) <==> x in s && x.expires > now && presented != x.token
  {
    hide Sound, Has, Live;
    LiveMembers(s, now);
    var op, live := Consume(presented, now), Live(s, now);
    AcceptedIffStored(s, presented, now);
    if Succeeds(s, op) {
      TakenOut(live, Match(live, presented), x);
    }
  }

  // Of a sound store exactly the token in that slot goes.
  lemma TakenOut(s: Store, k: nat, x: Issued)
    requires Sound(s) && k < |s|
    ensures x in Without(s, k) <==> x in s && x.token != s[k].token
  {
    var r := Without(s, k);
    if x in r {
      var i :| 0 <= i < |r| && r[i] == x;
      assert s[if i < k then i else i + 1] == x;
    }
    OthersStay(s, k);
    if x in s {
      var i :| 0 <= i < |s| && s[i] == x;
      if x.token == s[k].token { SameToken(s, i, k); }
    }
  }

  lemma IssuePushesOne(s: Store, t: Token, expires: Int64, now: Int64, x: Issued)
    requires Sound(s) && Sound(Live(s, now)) && !(t == x.token && Succeeds(s, Issue(t, expires, now)))
    ensures x in After(s, Issue(t, expires, now)) <==> x in s && !Ends(s, Issue(t, expires, now), x)
  {
    hide Sound, Has, Live, IsZero, GivesWay;
    LiveMembers(s, now);
    var op, live := Issue(t, expires, now), Live(s, now);
    if Succeeds(s, op) && |live| >= MAX_TOKENS {
      FullIsAllLive(s, now);
      FullPushesOne(s, t, expires, now, x);
    } else if GivesWay(s, x, now) {
      GivingWayIsFull(s, x, now);
    }
  }

  lemma GivingWayIsFull(s: Store, x: Issued, now: Int64)
    requires GivesWay(s, x, now)
    ensures |Live(s, now)| == 4
  {
    LiveKeepsLive(s, now);
  }

  lemma FullPushesOne(s: Store, t: Token, expires: Int64, now: Int64, x: Issued)
    requires Sound(s) && |s| == 4 && AllLive(s, now) && t != x.token
    ensures x in Without(s, Soonest(s)) + [Issued(t, expires)] <==> x in s && !GivesWay(s, x, now)
  {
    hide Sound;
    var k := Soonest(s);
    TakenOut(s, k, x);
    if x in s {
      var j :| 0 <= j < |s| && s[j] == x;
      if GivesWay(s, x, now) { SoonestGivesWay(s, x, now, k); }
      if x.token == s[k].token { SameToken(s, j, k); }
    }
  }

  lemma FullIsAllLive(s: Store, now: Int64)
    requires Sound(s) && |Live(s, now)| >= 4
    ensures Live(s, now) == s && |s| == 4 && AllLive(s, now)
  {
    SoundInShort(s);
    LongIsWhole(s, now);
  }

  lemma {:induction false} LongIsWhole(s: Store, now: Int64)
    requires |Live(s, now)| == |s|
    ensures Live(s, now) == s && AllLive(s, now)
  {
    if s != [] {
      assert s == [s[0]] + s[1..];
      LongIsWhole(s[1..], now);
    }
  }

  lemma SoonestGivesWay(s: Store, x: Issued, now: Int64, k: nat)
    requires GivesWay(s, x, now) && k < |s|
    requires forall i | 0 <= i < |s| :: s[k].expires <= s[i].expires
    requires forall i | 0 <= i < k :: s[k].expires < s[i].expires
    ensures s[k] == x
  {
    var j :| 0 <= j < 4 && s[j] == x
             && (forall i | 0 <= i < 4 :: x.expires <= s[i].expires)
             && (forall i | 0 <= i < j :: x.expires < s[i].expires);
    assert j == k;
  }

  // Operation i is the last issue of the token, with its expiry, and nothing has ended it since.
  ghost predicate LivesSince(ops: seq<Op>, i: nat, x: Issued)
    requires i < |ops|
  {
    LastIssue(ops, i, x.token) && ops[i].expires == x.expires && LivesOn(ops, i, x)
  }

  ghost predicate LivesStill(ops: seq<Op>, x: Issued)
  {
    exists i :: 0 <= i < |ops| && LivesSince(ops, i, x)
  }

  lemma LivesStillOneMore(ops: seq<Op>, x: Issued)
    requires ops != []
    ensures var front, op := ops[..|ops| - 1], ops[|ops| - 1];
            LivesStill(ops, x) <==>
              if IssuedAt(ops, |front|, x.token) then op.expires == x.expires
              else LivesStill(front, x) && !Ends(Run(front), op, x)
  {
    hide Run, Succeeds, Ends, LivesSince;
    var front := ops[..|ops| - 1];
    if IssuedAt(ops, |front|, x.token) {
      OnlyTheLast(ops, x);
    } else {
      forall i | 0 <= i < |front|
        ensures LivesSince(ops, i, x) <==> LivesSince(front, i, x) && !Ends(Run(front), ops[|ops| - 1], x) {
        LivesSinceBefore(ops, i, x);
      }
      NotTheLast(ops, x);
    }
  }

  // The whole store, said in the history: a token is there exactly when nothing has ended it since its last
  // issue, and with the expiry of that.
  lemma {:induction false} StoredIff(ops: seq<Op>, x: Issued)
    ensures x in Run(ops) <==> exists i :: 0 <= i < |ops| && LivesSince(ops, i, x)
  {
    hide LivesStill, Run, After, Succeeds, Ends, Sound, LivesSince, IssuedAt;
    if ops == [] {
      NothingStored(x);
    } else {
      var front, op := ops[..|ops| - 1], ops[|ops| - 1];
      RunIsSound(front);
      RunOfLast(ops);
      IssuedLast(ops, x.token);
      LivesStillOneMore(ops, x);
      StoredIff(front, x);
      AsLivesStill(front, x);
      if IssuedAt(ops, |front|, x.token) {
        IssuedNow(Run(front), op, x);
      } else {
        StaysUnlessEnded(Run(front), op, x);
      }
    }
    AsLivesStill(ops, x);
  }

  lemma AsLivesStill(ops: seq<Op>, x: Issued)
    ensures LivesStill(ops, x) <==> exists i :: 0 <= i < |ops| && LivesSince(ops, i, x)
  {
    hide LivesSince;
  }

  lemma NothingStored(x: Issued)
    ensures x !in Run([]) && !LivesStill([], x)
  {
  }

  lemma IssuedLast(ops: seq<Op>, t: Token)
    requires ops != []
    ensures var op := ops[|ops| - 1];
            IssuedAt(ops, |ops| - 1, t) <==> op.Issue? && op.token == t && Succeeds(Run(ops[..|ops| - 1]), op)
  {
    hide Run, Succeeds;
  }

  lemma OnlyTheLast(ops: seq<Op>, x: Issued)
    requires ops != [] && IssuedAt(ops, |ops| - 1, x.token)
    ensures forall i | 0 <= i < |ops| - 1 :: !LivesSince(ops, i, x)
    ensures LivesSince(ops, |ops| - 1, x) <==> ops[|ops| - 1].expires == x.expires
  {
    hide Run, Succeeds, Ends;
  }

  lemma NotTheLast(ops: seq<Op>, x: Issued)
    requires ops != [] && !IssuedAt(ops, |ops| - 1, x.token)
    ensures !LivesSince(ops, |ops| - 1, x)
  {
    hide Run, Succeeds, Ends;
  }

  lemma LivesSinceBefore(ops: seq<Op>, i: nat, x: Issued)
    requires ops != [] && i < |ops| - 1 && !IssuedAt(ops, |ops| - 1, x.token)
    ensures var front := ops[..|ops| - 1];
            LivesSince(ops, i, x) <==> LivesSince(front, i, x) && !Ends(Run(front), ops[|ops| - 1], x)
  {
    hide Run, Succeeds, Ends, IssuedAt, LivesOn;
    IssuesBefore(ops, x.token);
    LivesOnBefore(ops, i, x);
    var front := ops[..|ops| - 1];
    assert front[i] == ops[i];
    assert forall k | i < k < |front| :: IssuedAt(ops, k, x.token) == IssuedAt(front, k, x.token);
    assert LastIssue(ops, i, x.token) == LastIssue(front, i, x.token);
    if LastIssue(front, i, x.token) { IsAnIssue(front, i, x.token); }
  }

  lemma RunOfLast(ops: seq<Op>)
    requires ops != []
    ensures Run(ops) == After(Run(ops[..|ops| - 1]), ops[|ops| - 1])
  {
    hide After;
  }

  lemma IssuedNow(s: Store, op: Op, x: Issued)
    requires op.Issue? && op.token == x.token && Succeeds(s, op)
    ensures x in After(s, op) <==> op.expires == x.expires
  {
    IssuedIff(s, op.token, op.expires, op.now);
    if x in After(s, op) { KeptOrIssued(s, op, x); }
  }

  lemma LivesOnBefore(ops: seq<Op>, i: nat, x: Issued)
    requires ops != [] && i < |ops| - 1
    ensures var front := ops[..|ops| - 1];
            LivesOn(ops, i, x) <==> LivesOn(front, i, x) && !Ends(Run(front), ops[|ops| - 1], x)
  {
    hide Run, Ends;
    var front := ops[..|ops| - 1];
    forall k | i < k < |front| ensures front[k] == ops[k] && front[..k] == ops[..k] {
    }
  }

  lemma IsAnIssue(ops: seq<Op>, i: nat, t: Token)
    requires i < |ops| && LastIssue(ops, i, t)
    ensures ops[i].Issue?
  {
    hide Run, Succeeds;
  }

  // So on every run a token is accepted exactly when nothing has ended its last issue: no later operation at
  // or past its expiry, no acceptance, no clearing, no newer token that pushed it out.
  lemma AcceptedIff(ops: seq<Op>, t: Token, now: Int64)
    ensures Succeeds(Run(ops), Consume(t, now)) <==>
              exists i :: 0 <= i < |ops| && LastIssue(ops, i, t) && now < ops[i].expires
                          && LivesOn(ops, i, Issued(t, ops[i].expires))
  {
    hide Run, LivesOn, Succeeds;
    AcceptedIffStored(Run(ops), t, now);
    if exists x :: x in Run(ops) && x.token == t && x.expires > now {
      var x :| x in Run(ops) && x.token == t && x.expires > now;
      StoredIff(ops, x);
      var i :| 0 <= i < |ops| && LivesSince(ops, i, x);
      assert x == Issued(t, ops[i].expires);
    }
    if i :| 0 <= i < |ops| && LastIssue(ops, i, t) && now < ops[i].expires
            && LivesOn(ops, i, Issued(t, ops[i].expires)) {
      StoredIff(ops, Issued(t, ops[i].expires));
      assert LivesSince(ops, i, Issued(t, ops[i].expires));
    }
  }
}

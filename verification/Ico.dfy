// write_ico of make-icons.py: a directory of entries, and the images behind it.
module Ico {
  import opened Machine
  import opened ByteOrder

  const HEADER_BYTES: nat := 6
  const ENTRY_BYTES: nat := 16

  datatype Frame = Frame(size: nat, png: Text)

  function Entry(f: Frame, offset: Word32): (s: Text)
    requires |f.png| < TWO32
    ensures |s| == ENTRY_BYTES
  {
    [f.size % 0x100, f.size % 0x100, 0, 0] + Little16(1) + Little16(32) + Little32(|f.png|) + Little32(offset)
  }

  // The lengths and the running offset fit the 32 bits that an entry has for them.
  predicate Fits(frames: seq<Frame>, offset: nat)
  {
    frames == [] || (|frames[0].png| < TWO32 && offset < TWO32 && Fits(frames[1..], offset + |frames[0].png|))
  }

  function Entries(frames: seq<Frame>, offset: nat): (s: Text)
    requires Fits(frames, offset)
    ensures |s| == ENTRY_BYTES * |frames|
  {
    if frames == [] then [] else Entry(frames[0], offset) + Entries(frames[1..], offset + |frames[0].png|)
  }

  function Payloads(frames: seq<Frame>): Text
  {
    if frames == [] then [] else frames[0].png + Payloads(frames[1..])
  }

  function Header(count: nat): (s: Text)
    requires count < TWO16
    ensures |s| == HEADER_BYTES
  {
    Little16(0) + Little16(1) + Little16(count)
  }

  // The file, or None where a number does not fit (a struct.error).
  function File(frames: seq<Frame>): Option<Text>
  {
    var offset := HEADER_BYTES + ENTRY_BYTES * |frames|;
    if |frames| >= TWO16 || !Fits(frames, offset) then None
    else Some(Header(|frames|) + Entries(frames, offset) + Payloads(frames))
  }

  method WriteIco(frames: seq<Frame>) returns (r: Option<Text>)
    ensures r == File(frames)
  {
    if |frames| >= TWO16 {
      return None;
    }
    hide Entry, Header, Fits, Entries, Payloads, Written;
    var header := Header(|frames|);
    var offset: nat := |header| + ENTRY_BYTES * |frames|;
    ghost var start := offset;
    var entries: Text := [];
    var payloads: Text := [];
    var i := 0;
    NothingWritten(frames, start);
    while i < |frames|
      invariant 0 <= i <= |frames|
      invariant Written(frames, start, i, offset, entries, payloads)
    {
      var f := frames[i];
      OneMoreWritten(frames, start, i, offset, entries, payloads);
      if |f.png| >= TWO32 || offset >= TWO32 {
        return None;
      }
      entries := entries + Entry(f, offset);
      payloads := payloads + f.png;
      offset := offset + |f.png|;
      i := i + 1;
    }
    AllWritten(frames, start, offset, entries, payloads);
    return Some(header + entries + payloads);
  }

  // What is written of the first i frames, and what is still to come, make the whole.
  ghost predicate Written(frames: seq<Frame>, start: nat, i: nat, offset: nat, entries: Text, payloads: Text)
    requires i <= |frames|
  {
    && Fits(frames, start) == Fits(frames[i..], offset)
    && (Fits(frames, start) ==> entries + Entries(frames[i..], offset) == Entries(frames, start))
    && payloads + Payloads(frames[i..]) == Payloads(frames)
  }

  lemma NothingWritten(frames: seq<Frame>, start: nat)
    ensures Written(frames, start, 0, start, [], [])
  {
    hide Fits, Entries, Payloads;
    assert frames[0..] == frames;
  }

  lemma OneMoreWritten(frames: seq<Frame>, start: nat, i: nat, offset: nat, entries: Text, payloads: Text)
    requires i < |frames| && Written(frames, start, i, offset, entries, payloads)
    ensures var f := frames[i];
            if |f.png| >= TWO32 || offset >= TWO32 then !Fits(frames, start)
            else Written(frames, start, i + 1, offset + |f.png|, entries + Entry(f, offset), payloads + f.png)
  {
    hide Entry, Fits, Entries, Payloads;
    assert frames[i..][0] == frames[i] && frames[i..][1..] == frames[i + 1..];
    FrameStep(frames[i..], offset, entries, payloads);
  }

  lemma AllWritten(frames: seq<Frame>, start: nat, offset: nat, entries: Text, payloads: Text)
    requires Written(frames, start, |frames|, offset, entries, payloads)
    ensures Fits(frames, start) && entries == Entries(frames, start) && payloads == Payloads(frames)
  {
    hide Fits, Entries, Payloads;
    NoFramesLeft(offset);
    assert frames[|frames|..] == [] && entries + [] == entries && payloads + [] == payloads;
  }

  // One turn of the loop.
  lemma FrameStep(frames: seq<Frame>, offset: nat, entries: Text, payloads: Text)
    requires frames != []
    ensures var f, rest := frames[0], frames[1..];
            && Fits(frames, offset) == (|f.png| < TWO32 && offset < TWO32 && Fits(rest, offset + |f.png|))
            && (Fits(frames, offset) ==>
                entries + Entries(frames, offset) == entries + Entry(f, offset) + Entries(rest, offset + |f.png|))
            && payloads + Payloads(frames) == payloads + f.png + Payloads(rest)
  {
    hide Entry;
    var f, rest := frames[0], frames[1..];
    assert payloads + (f.png + Payloads(rest)) == payloads + f.png + Payloads(rest);
    if Fits(frames, offset) {
      var more := Entries(rest, offset + |f.png|);
      assert entries + (Entry(f, offset) + more) == entries + Entry(f, offset) + more;
    }
  }

  lemma NoFramesLeft(offset: nat)
    ensures Fits([], offset) && Entries([], offset) == [] && Payloads([]) == []
  {
  }

  // ---------------------------------------------------------------------------------------------

  // Where the image of entry i begins, counted from the first image.
  function Before(frames: seq<Frame>, i: nat): nat
    requires i <= |frames|
  {
    if i == 0 then 0 else |frames[0].png| + Before(frames[1..], i - 1)
  }

  // A piece behind the first part is a piece of the rest.
  lemma BehindFirst(first: Text, rest: Text, lo: nat, hi: nat)
    requires lo <= hi <= |rest|
    ensures (first + rest)[|first| + lo..|first| + hi] == rest[lo..hi]
  {
    assert (first + rest)[|first|..] == rest;
  }

  lemma {:induction false} EntryAt(frames: seq<Frame>, offset: nat, i: nat)
    requires Fits(frames, offset) && i < |frames|
    ensures |frames[i].png| < TWO32 && offset + Before(frames, i) < TWO32
    ensures Entries(frames, offset)[ENTRY_BYTES * i..ENTRY_BYTES * (i + 1)]
            == Entry(frames[i], offset + Before(frames, i))
    decreases i
  {
    hide Entry;
    var first := Entry(frames[0], offset);
    if i > 0 {
      var rest := Entries(frames[1..], offset + |frames[0].png|);
      EntryAt(frames[1..], offset + |frames[0].png|, i - 1);
      BehindFirst(first, rest, ENTRY_BYTES * (i - 1), ENTRY_BYTES * i);
    } else {
      assert (first + Entries(frames[1..], offset + |frames[0].png|))[..ENTRY_BYTES] == first;
    }
  }

  lemma {:induction false} PayloadAt(frames: seq<Frame>, i: nat)
    requires i < |frames|
    ensures Before(frames, i) + |frames[i].png| <= |Payloads(frames)|
    ensures Payloads(frames)[Before(frames, i)..Before(frames, i) + |frames[i].png|] == frames[i].png
    decreases i
  {
    var first, rest := frames[0].png, Payloads(frames[1..]);
    if i > 0 {
      PayloadAt(frames[1..], i - 1);
      var at := Before(frames[1..], i - 1);
      BehindFirst(first, rest, at, at + |frames[i].png|);
    } else {
      assert (first + rest)[..|first|] == first;
    }
  }

  lemma EntryIsRead(f: Frame, offset: Word32)
    requires |f.png| < TWO32
    ensures var e := Entry(f, offset);
            ReadLittle32(e[8..]) == |f.png| && ReadLittle32(e[12..]) == offset && e[0] == f.size % 0x100 == e[1]
            && e[2..8] == [0, 0, 1, 0, 32, 0]
  {
    hide Little32, ReadLittle32;
    var e := Entry(f, offset);
    assert e[8..] == Little32(|f.png|) + Little32(offset);
    assert e[12..] == Little32(offset) + [];
    NumbersAreRead(|f.png|, Little32(offset));
    NumbersAreRead(offset, []);
  }

  // Every entry of the directory cuts exactly its own image out of the file, and the images follow
  // one another to the end of the file without a gap.
  lemma EntryFindsItsImage(frames: seq<Frame>, i: nat)
    requires File(frames).Some? && i < |frames|
    ensures var file := File(frames).value;
            var e := file[HEADER_BYTES + ENTRY_BYTES * i..HEADER_BYTES + ENTRY_BYTES * (i + 1)];
            var length, offset := ReadLittle32(e[8..]), ReadLittle32(e[12..]);
            && ReadLittle16(file[4..]) == |frames|
            && file[..4] == [0, 0, 1, 0] && e[2..8] == [0, 0, 1, 0, 32, 0]
            && e[0] == e[1] == frames[i].size % 0x100
            && offset + length <= |file| && file[offset..offset + length] == frames[i].png
            && offset == HEADER_BYTES + ENTRY_BYTES * |frames| + Before(frames, i)
            && |file| == HEADER_BYTES + ENTRY_BYTES * |frames| + Before(frames, |frames|)
  {
    hide Entry, Entries, Payloads, Fits, Header, Before, ReadLittle16, ReadLittle32;
    var start := HEADER_BYTES + ENTRY_BYTES * |frames|;
    var header, entries, payloads := Header(|frames|), Entries(frames, start), Payloads(frames);
    var file := File(frames).value;
    EntryAt(frames, start, i);
    EntryIsRead(frames[i], start + Before(frames, i));
    PayloadAt(frames, i);
    TotalLength(frames);
    HeaderCounts(|frames|, entries + payloads);
    assert file == header + (entries + payloads);
    ThreeParts(header, entries, payloads, ENTRY_BYTES * i, ENTRY_BYTES * (i + 1));
    var at, n := Before(frames, i), |frames[i].png|;
    assert file[start + at..start + at + n] == payloads[at..at + n];
  }

  lemma ThreeParts(a: Text, b: Text, c: Text, lo: nat, hi: nat)
    requires lo <= hi <= |b|
    ensures (a + b + c)[|a| + lo..|a| + hi] == b[lo..hi]
  {
  }

  lemma HeaderCounts(count: nat, rest: Text)
    requires count < TWO16
    ensures ReadLittle16((Header(count) + rest)[4..]) == count && (Header(count) + rest)[..4] == [0, 0, 1, 0]
  {
    var s := (Header(count) + rest)[4..];
    assert s[0] == Header(count)[4] && s[1] == Header(count)[5];
  }

  lemma {:induction false} TotalLength(frames: seq<Frame>)
    ensures |Payloads(frames)| == Before(frames, |frames|)
  {
    if frames != [] {
      TotalLength(frames[1..]);
    }
  }
}

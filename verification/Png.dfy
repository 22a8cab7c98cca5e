// The lines of an image in make-icons.py, and the filters of section 9 of the PNG specification.
module Png {
  import opened Machine

  type Positive = c: int | c > 0 witness 1

  // ---------------------------------------------------------------------------------------------
  // Filters.

  function Distance(a: int, b: int): nat
  {
    if a >= b then a - b else b - a
  }

  function Paeth(left: Byte, up: Byte, upLeft: Byte): Byte
  {
    var estimate := left as int + up - upLeft;
    var dLeft, dUp, dUpLeft := Distance(estimate, left), Distance(estimate, up), Distance(estimate, upLeft);
    if dLeft <= dUp && dLeft <= dUpLeft then left
    else if dUp <= dUpLeft then up
    else upLeft
  }

  // What a filter type predicts a byte to be; types that are not known predict nothing.
  function Prediction(filter: Byte, left: Byte, up: Byte, upLeft: Byte): Byte
  {
    if filter == 1 then left
    else if filter == 2 then up
    else if filter == 3 then (left as int + up) / 2
    else if filter == 4 then Paeth(left, up, upLeft)
    else 0
  }

  // Section 9.4: the predictor is the one of the three neighbours nearest to left + up - upLeft, and
  // in a tie the first of left, up and upLeft.
  lemma PaethIsNearest(left: Byte, up: Byte, upLeft: Byte)
    ensures var p, r := left as int + up - upLeft, Paeth(left, up, upLeft);
            && (r == left || r == up || r == upLeft)
            && Distance(p, r) <= Distance(p, left) && Distance(p, r) <= Distance(p, up)
            && Distance(p, r) <= Distance(p, upLeft)
            && (r != left ==> Distance(p, r) < Distance(p, left))
            && (r != left && r != up ==> Distance(p, r) < Distance(p, up))
  {
  }

  // The byte so many places back, or 0 at the start of a line.
  function Back(line: Text, x: nat, channels: Positive): Byte
    requires x <= |line|
  {
    if x >= channels then line[x - channels] else 0
  }

  function Predicted(filter: Byte, line: Text, above: Text, x: nat, channels: Positive): Byte
    requires x <= |line| && x < |above|
  {
    Prediction(filter, Back(line, x, channels), above[x], Back(above, x, channels))
  }

  // The first n bytes of a line, given back from their filtered form.
  function Unfiltered(filter: Byte, raw: Text, above: Text, channels: Positive, n: nat): (line: Text)
    requires n <= |raw| && n <= |above|
    ensures |line| == n
  {
    if n == 0 then []
    else
      var line := Unfiltered(filter, raw, above, channels, n - 1);
      line + [(raw[n - 1] as int + Predicted(filter, line, above, n - 1, channels)) % 0x100]
  }

  // The first n bytes of a line in the form that a filter gives them.
  function Filtered(filter: Byte, line: Text, above: Text, channels: Positive, n: nat): (raw: Text)
    requires n <= |line| && n <= |above|
    ensures |raw| == n
  {
    if n == 0 then []
    else
      Filtered(filter, line, above, channels, n - 1)
      + [(line[n - 1] as int - Predicted(filter, line, above, n - 1, channels)) % 0x100]
  }

  // Only what lies further back matters to a prediction.
  lemma PredictedFromPrefix(filter: Byte, line: Text, above: Text, x: nat, channels: Positive)
    requires x <= |line| && x < |above|
    ensures Predicted(filter, line[..x], above, x, channels) == Predicted(filter, line, above, x, channels)
  {
  }

  // Reconstruction inverts filtering, for every filter type and channel count ...
  lemma {:induction false} FilteringIsUndone(filter: Byte, line: Text, above: Text, channels: Positive, n: nat)
    requires n <= |line| && n <= |above|
    ensures Unfiltered(filter, Filtered(filter, line, above, channels, n), above, channels, n) == line[..n]
  {
    if n > 0 {
      hide Prediction;
      var raw := Filtered(filter, line, above, channels, n);
      var front := Filtered(filter, line, above, channels, n - 1);
      FilteringIsUndone(filter, line, above, channels, n - 1);
      OnlyTheFrontCounts(filter, raw, front, above, channels, n - 1);
      PredictedFromPrefix(filter, line, above, n - 1, channels);
      AddedBack(line[n - 1], Predicted(filter, line, above, n - 1, channels));
      assert line[..n] == line[..n - 1] + [line[n - 1]];
    }
  }

  // ... and filtering inverts reconstruction.
  lemma {:induction false} ReconstructionIsUndone(filter: Byte, raw: Text, above: Text, channels: Positive, n: nat)
    requires n <= |raw| && n <= |above|
    ensures Filtered(filter, Unfiltered(filter, raw, above, channels, n), above, channels, n) == raw[..n]
  {
    if n > 0 {
      hide Prediction;
      var line := Unfiltered(filter, raw, above, channels, n);
      var front := Unfiltered(filter, raw, above, channels, n - 1);
      assert line[..n - 1] == front;
      ReconstructionIsUndone(filter, raw, above, channels, n - 1);
      FilteredFromFront(filter, line, above, channels, n - 1);
      PredictedFromPrefix(filter, line, above, n - 1, channels);
      TakenOff(raw[n - 1], Predicted(filter, front, above, n - 1, channels));
      assert raw[..n] == raw[..n - 1] + [raw[n - 1]];
    }
  }

  lemma AddedBack(b: Byte, p: Byte)
    ensures ((b as int - p) % 0x100 + p) % 0x100 == b
  {
  }

  lemma TakenOff(b: Byte, p: Byte)
    ensures ((b as int + p) % 0x100 - p) % 0x100 == b
  {
  }

  lemma {:induction false} OnlyTheFrontCounts(filter: Byte, raw: Text, front: Text, above: Text,
                                              channels: Positive, n: nat)
    requires n <= |front| <= |raw| && n <= |above| && raw[..|front|] == front
    ensures Unfiltered(filter, raw, above, channels, n) == Unfiltered(filter, front, above, channels, n)
  {
    hide Prediction;
    if n > 0 {
      OnlyTheFrontCounts(filter, raw, front, above, channels, n - 1);
      assert raw[n - 1] == front[n - 1];
    }
  }

  lemma {:induction false} FilteredFromFront(filter: Byte, line: Text, above: Text, channels: Positive, n: nat)
    requires n <= |line| && n <= |above|
    ensures Filtered(filter, line, above, channels, n) == Filtered(filter, line[..n], above, channels, n)
    decreases n
  {
    hide Prediction;
    if n > 0 {
      FilteredFromFront(filter, line, above, channels, n - 1);
      FilteredFromFront(filter, line[..n], above, channels, n - 1);
      assert line[..n][..n - 1] == line[..n - 1];
      PredictedFromPrefix(filter, line, above, n - 1, channels);
      PredictedFromPrefix(filter, line[..n], above, n - 1, channels);
    }
  }

  predicate IsKnown(filter: Byte) { 1 <= filter <= 4 }

  // Whether the loop over a line of `length` bytes below one of `above` bytes stays inside both: it
  // goes on to the stride, but without a known filter it never looks at the byte it is at.
  predicate StaysInside(filter: Byte, length: nat, above: nat, stride: nat, channels: Positive)
  {
    stride <= above && (if IsKnown(filter) then stride <= length else stride <= length + channels)
  }

  // The loop over a line, which overwrites it in place from left to right; false where an index is
  // out of range.
  method ReconstructLine(filter: Byte, line: array<Byte>, above: Text, stride: nat, channels: Positive)
    returns (ok: bool)
    requires line.Length <= stride
    modifies line
    ensures ok == StaysInside(filter, line.Length, |above|, stride, channels)
    ensures ok ==> line[..] == Unfiltered(filter, old(line[..]), above, channels, line.Length)
  {
    hide Prediction, Unfiltered, Back;
    ghost var raw := line[..];
    NothingUnfiltered(filter, raw, above, channels);
    var x := 0;
    while x < stride
      invariant 0 <= x <= stride && x <= |above| && x <= line.Length + channels
      invariant IsKnown(filter) ==> x <= line.Length
      invariant var n := Min(x, line.Length);
                line[..n] == Unfiltered(filter, raw, above, channels, n) && line[n..] == raw[n..]
    {
      if x - channels >= line.Length || x >= |above| {
        return false;
      }
      var left := if x >= channels then line[x - channels] else 0;
      var up := above[x];
      var upLeft := if x >= channels then above[x - channels] else 0;
      if x < line.Length { BackIsLookup(line[..], above, x, channels); }
      if IsKnown(filter) {
        if x >= line.Length {
          return false;
        }
        OverwriteOne(filter, raw, line[..], above, channels, x);
        line[x] := (line[x] as int + Prediction(filter, left, up, upLeft)) % 0x100;
      } else if x < line.Length {
        OverwriteOne(filter, raw, line[..], above, channels, x);
        NothingPredicted(filter, left, up, upLeft);
        assert line[..] == line[..][x := line[x]];
      }
      x := x + 1;
    }
    assert line[..] == line[..line.Length];
    return true;
  }

  lemma BackIsLookup(line: Text, above: Text, x: nat, channels: Positive)
    requires x <= |line| && x <= |above|
    ensures Back(line, x, channels) == if x >= channels then line[x - channels] else 0
    ensures Back(above, x, channels) == if x >= channels then above[x - channels] else 0
  {
  }

  lemma NothingUnfiltered(filter: Byte, raw: Text, above: Text, channels: Positive)
    ensures Unfiltered(filter, raw, above, channels, 0) == []
  {
  }

  lemma NothingPredicted(filter: Byte, left: Byte, up: Byte, upLeft: Byte)
    requires !IsKnown(filter)
    ensures Prediction(filter, left, up, upLeft) == 0
  {
  }

  // One byte of the line overwritten, in front of what is still raw.
  lemma OverwriteOne(filter: Byte, raw: Text, line: Text, above: Text, channels: Positive, x: nat)
    requires x < |raw| == |line| && x < |above|
    requires line[..x] == Unfiltered(filter, raw, above, channels, x) && line[x..] == raw[x..]
    ensures var left, upLeft := Back(line, x, channels), Back(above, x, channels);
            var next := line[x := (line[x] as int + Prediction(filter, left, above[x], upLeft)) % 0x100];
            next[..x + 1] == Unfiltered(filter, raw, above, channels, x + 1) && next[x + 1..] == raw[x + 1..]
  {
    hide Prediction;
    PredictedFromPrefix(filter, line, above, x, channels);
    assert line[x] == line[x..][0] && raw[x..][0] == raw[x];
    assert line[x..][1..] == line[x + 1..] && raw[x..][1..] == raw[x + 1..];
    var left, upLeft := Back(line, x, channels), Back(above, x, channels);
    var next := line[x := (line[x] as int + Prediction(filter, left, above[x], upLeft)) % 0x100];
    assert next[..x + 1] == line[..x] + [next[x]] && next[x + 1..] == line[x + 1..];
  }

  // ---------------------------------------------------------------------------------------------
  // The lines of an image.

  // Every line with the type of its filter in front. The line above the first one is all zero.
  function Body(rows: seq<Text>, filters: seq<Byte>, above: Text, channels: Positive): Text
    requires |filters| == |rows|
    requires forall i | 0 <= i < |rows| :: |rows[i]| == |above|
  {
    if rows == [] then []
    else
      [filters[0]] + Filtered(filters[0], rows[0], above, channels, |above|)
      + Body(rows[1..], filters[1..], rows[0], channels)
  }

  function Front(s: Text, n: nat): (r: Text)
    ensures |r| == Min(n, |s|)
  {
    s[..Min(n, |s|)]
  }

  function Drop(s: Text, n: nat): (r: Text)
  {
    s[Min(n, |s|)..]
  }

  // The lines read back, or None where an index is out of range. A slice that runs over the end of
  // the data is just shorter.
  function ReadRows(raw: Text, above: Text, stride: nat, channels: Positive, height: nat): (rows: Option<seq<Text>>)
    ensures rows.Some? ==> |rows.value| == height
    decreases height
  {
    if height == 0 then Some([])
    else if raw == [] then None
    else
      var line := Front(raw[1..], stride);
      if !StaysInside(raw[0], |line|, |above|, stride, channels) then None
      else
        var row := Unfiltered(raw[0], line, above, channels, |line|);
        match ReadRows(Drop(raw[1..], stride), row, stride, channels, height - 1)
        case Some(rows) => Some([row] + rows)
        case None => None
  }

  lemma CutOff(a: Text, b: Text)
    ensures Front(a + b, |a|) == a && Drop(a + b, |a|) == b
  {
  }

  lemma WholeLineStaysInside(filter: Byte, n: nat, channels: Positive)
    ensures StaysInside(filter, n, n, n, channels)
  {
  }

  lemma RowIsRead(filter: Byte, row: Text, above: Text, channels: Positive, tail: Text, height: nat)
    requires height > 0 && |row| == |above|
    ensures var raw := [filter] + Filtered(filter, row, above, channels, |above|) + tail;
            ReadRows(raw, above, |above|, channels, height) ==
              Behind([row], ReadRows(tail, row, |above|, channels, height - 1))
  {
    hide Unfiltered, Filtered, Front, Drop, StaysInside;
    var n := |above|;
    var filtered := Filtered(filter, row, above, channels, n);
    var raw := [filter] + filtered + tail;
    assert raw[1..] == filtered + tail;
    CutOff(filtered, tail);
    WholeLineStaysInside(filter, n, channels);
    FilteringIsUndone(filter, row, above, channels, n);
    assert row[..n] == row;
  }

  lemma FirstRow(rows: seq<Text>, filters: seq<Byte>, above: Text, channels: Positive, rest: Text)
    requires |filters| == |rows| > 0
    requires forall i | 0 <= i < |rows| :: |rows[i]| == |above|
    ensures Body(rows, filters, above, channels) + rest ==
              [filters[0]] + Filtered(filters[0], rows[0], above, channels, |above|)
              + (Body(rows[1..], filters[1..], rows[0], channels) + rest)
  {
    hide Filtered;
  }

  lemma {:induction false} RowsAreRead(rows: seq<Text>, filters: seq<Byte>, above: Text, channels: Positive, rest: Text)
    requires |filters| == |rows|
    requires forall i | 0 <= i < |rows| :: |rows[i]| == |above|
    ensures ReadRows(Body(rows, filters, above, channels) + rest, above, |above|, channels, |rows|) == Some(rows)
    decreases |rows|
  {
    hide Unfiltered, Filtered, ReadRows, Body;
    if rows != [] {
      var body := Body(rows[1..], filters[1..], rows[0], channels);
      FirstRow(rows, filters, above, channels, rest);
      RowIsRead(filters[0], rows[0], above, channels, body + rest, |rows|);
      RowsAreRead(rows[1..], filters[1..], rows[0], channels, rest);
      assert rows == [rows[0]] + rows[1..];
    } else {
      NoRowsLeft(Body(rows, filters, above, channels) + rest, above, |above|, channels, []);
    }
  }

  // One line taken out of the data and reconstructed.
  method ReadLine(raw: Text, at: nat, above: Text, stride: nat, channels: Positive) returns (row: Option<Text>)
    ensures row == if at >= |raw| then None
                   else
                     var line := Front(Drop(raw, at + 1), stride);
                     if StaysInside(raw[at], |line|, |above|, stride, channels)
                     then Some(Unfiltered(raw[at], line, above, channels, |line|)) else None
  {
    hide Unfiltered, StaysInside;
    if at >= |raw| {
      return None;
    }
    var bytes := Front(Drop(raw, at + 1), stride);
    var line := new Byte[|bytes|](i requires 0 <= i < |bytes| => bytes[i]);
    assert line[..] == bytes;
    var ok := ReconstructLine(raw[at], line, above, stride, channels);
    return if ok then Some(line[..]) else None;
  }

  // The loop over the lines, each reconstructed in place and then the one above the next.
  method ReadLines(raw: Text, stride: nat, channels: Positive, height: nat) returns (r: Option<seq<Text>>)
    ensures r == ReadRows(raw, Zeros(stride), stride, channels, height)
  {
    hide Unfiltered, ReadRows, Behind, StaysInside, Front, Drop;
    var rows: seq<Text> := [];
    var above := Zeros(stride);
    var at: nat := 0;
    var y := 0;
    NothingBefore(ReadRows(raw, above, stride, channels, height));
    NothingDropped(raw);
    while y < height
      invariant 0 <= y <= height
      invariant Behind(rows, ReadRows(Drop(raw, at), above, stride, channels, height - y))
                == ReadRows(raw, Zeros(stride), stride, channels, height)
    {
      RowStep(raw, at, above, stride, channels, height - y, rows);
      var line := ReadLine(raw, at, above, stride, channels);
      if line.None? {
        return None;
      }
      at := at + 1 + stride;
      rows := rows + [line.value];
      above := line.value;
      y := y + 1;
    }
    NoRowsLeft(Drop(raw, at), above, stride, channels, rows);
    return Some(rows);
  }

  lemma NothingDropped(s: Text)
    ensures Drop(s, 0) == s
  {
  }

  function Zeros(n: nat): (s: Text)
    ensures |s| == n && forall i | 0 <= i < n :: s[i] == 0
  {
    seq(n, _ => 0)
  }

  lemma NothingBefore(more: Option<seq<Text>>)
    ensures Behind([], more) == more
  {
    assert more.Some? ==> [] + more.value == more.value;
  }

  lemma NoRowsLeft(raw: Text, above: Text, stride: nat, channels: Positive, rows: seq<Text>)
    ensures Behind(rows, ReadRows(raw, above, stride, channels, 0)) == Some(rows)
  {
    assert rows + [] == rows;
  }

  // One turn of the loop over the lines.
  lemma RowStep(raw: Text, at: nat, above: Text, stride: nat, channels: Positive, height: nat, rows: seq<Text>)
    requires height > 0
    ensures Behind(rows, ReadRows(Drop(raw, at), above, stride, channels, height)) ==
              if at >= |raw| then None
              else
                var line := Front(Drop(raw, at + 1), stride);
                if !StaysInside(raw[at], |line|, |above|, stride, channels) then None
                else
                  var row := Unfiltered(raw[at], line, above, channels, |line|);
                  Behind(rows + [row], ReadRows(Drop(raw, at + 1 + stride), row, stride, channels, height - 1))
  {
    if at < |raw| {
      hide Unfiltered;
      var s := Drop(raw, at);
      assert s[0] == raw[at] && s[1..] == Drop(raw, at + 1);
      assert Drop(s[1..], stride) == Drop(raw, at + 1 + stride);
      var line := Front(s[1..], stride);
      if StaysInside(raw[at], |line|, |above|, stride, channels) {
        var row := Unfiltered(raw[at], line, above, channels, |line|);
        var more := ReadRows(Drop(s[1..], stride), row, stride, channels, height - 1);
        if more.Some? {
          assert rows + ([row] + more.value) == rows + [row] + more.value;
        }
      }
    }
  }

  lemma {:induction false} ByteOfLine(filter: Byte, raw: Text, above: Text, channels: Positive, n: nat, x: nat)
    requires x < n <= |raw| && n <= |above|
    ensures var line := Unfiltered(filter, raw, above, channels, n);
            line[x] == (raw[x] as int + Predicted(filter, line, above, x, channels)) % 0x100
  {
    hide Predicted;
    var front := Unfiltered(filter, raw, above, channels, n - 1);
    var line := Unfiltered(filter, raw, above, channels, n);
    assert line[..x] == front[..x];
    PredictedFromPrefix(filter, line, above, x, channels);
    PredictedFromPrefix(filter, front, above, x, channels);
    if x < n - 1 {
      ByteOfLine(filter, raw, above, channels, n - 1, x);
    }
  }

  // What each filter type makes of a byte (section 9.2 of the PNG specification): the byte `channels` places back
  // in the line, the one above it, their mean, the nearest of three, or nothing is added, modulo 256.
  lemma ReconstructedByte(filter: Byte, raw: Text, above: Text, channels: Positive, n: nat, x: nat)
    requires x < n <= |raw| && n <= |above|
    ensures var line := Unfiltered(filter, raw, above, channels, n);
            var left: int := if x >= channels then line[x - channels] else 0;
            var upLeft: int := if x >= channels then above[x - channels] else 0;
            var up: int := above[x];
            && (filter == 1 ==> line[x] == (raw[x] as int + left) % 256)
            && (filter == 2 ==> line[x] == (raw[x] as int + up) % 256)
            && (filter == 3 ==> line[x] == (raw[x] as int + (left + up) / 2) % 256)
            && (filter == 4 ==> line[x] == (raw[x] as int + Paeth(left, up, upLeft)) % 256)
            && (filter == 0 || filter > 4 ==> line[x] == raw[x])
  {
    ByteOfLine(filter, raw, above, channels, n, x);
    hide Paeth, Unfiltered;
  }

  // A last line that is cut short: a filter cannot undo it, while an unfiltered one may lack a pixel.
  lemma LineCutShort(filter: Byte, row: Text, stride: nat, channels: Positive)
    requires |row| < stride
    ensures 1 <= filter <= 4 ==> ReadRows([filter] + row, Zeros(stride), stride, channels, 1) == None
    ensures filter == 0 && stride <= |row| + channels ==>
              ReadRows([filter] + row, Zeros(stride), stride, channels, 1) == Some([row])
  {
    var raw := [filter] + row;
    assert raw[1..] == row && Front(row, stride) == row && Drop(row, stride) == [];
    if filter == 0 && stride <= |row| + channels {
      PlainLine(row, Zeros(stride), channels, |row|);
      assert row[..|row|] == row;
      assert ReadRows([], row, stride, channels, 0) == Some([]) && [row] + [] == [row];
    }
  }

  lemma {:induction false} PlainLine(row: Text, above: Text, channels: Positive, n: nat)
    requires n <= |row| && n <= |above|
    ensures Unfiltered(0, row, above, channels, n) == row[..n]
  {
    if n > 0 {
      PlainLine(row, above, channels, n - 1);
      assert row[..n] == row[..n - 1] + [row[n - 1]];
    }
  }
}

// 16- and 32-bit numbers as bytes, in both orders.
module ByteOrder {
  import opened Machine

  // Most significant byte first.
  function Big32(n: Word32): (s: Text)
    ensures |s| == 4
  {
    [n / 0x100_0000, n / 0x1_0000 % 0x100, n / 0x100 % 0x100, n % 0x100]
  }

  function ReadBig32(s: Text): Word32
    requires |s| >= 4
  {
    s[0] as int * 0x100_0000 + s[1] as int * 0x1_0000 + s[2] as int * 0x100 + s[3] as int
  }

  // Least significant byte first.
  function Little16(n: int): (s: Text)
    requires 0 <= n < 0x1_0000
    ensures |s| == 2
  {
    [n % 0x100, n / 0x100]
  }

  function ReadLittle16(s: Text): nat
    requires |s| >= 2
  {
    s[0] as int + s[1] as int * 0x100
  }

  function Little32(n: Word32): (s: Text)
    ensures |s| == 4
  {
    [n % 0x100, n / 0x100 % 0x100, n / 0x1_0000 % 0x100, n / 0x100_0000]
  }

  function ReadLittle32(s: Text): Word32
    requires |s| >= 4
  {
    s[0] as int + s[1] as int * 0x100 + s[2] as int * 0x1_0000 + s[3] as int * 0x100_0000
  }

  lemma NumbersAreRead(n: Word32, rest: Text)
    ensures ReadBig32(Big32(n) + rest) == n
    ensures ReadLittle32(Little32(n) + rest) == n
  {
    assert n / 0x100 / 0x100 == n / 0x1_0000 && n / 0x1_0000 / 0x100 == n / 0x100_0000;
    var b, l := Big32(n) + rest, Little32(n) + rest;
    assert b[0] == Big32(n)[0] && b[1] == Big32(n)[1] && b[2] == Big32(n)[2] && b[3] == Big32(n)[3];
    assert l[0] == Little32(n)[0] && l[1] == Little32(n)[1] && l[2] == Little32(n)[2] && l[3] == Little32(n)[3];
  }

  // Which byte goes where.
  lemma BytesOfNumbers()
    ensures Big32(0x0102_0304) == [1, 2, 3, 4] && ReadBig32([1, 2, 3, 4]) == 0x0102_0304
    ensures Little32(0x0102_0304) == [4, 3, 2, 1] && ReadLittle32([4, 3, 2, 1]) == 0x0102_0304
    ensures Little16(0x0102) == [2, 1] && ReadLittle16([2, 1]) == 0x0102
  {
  }
}

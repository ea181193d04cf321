/** The rolling Adler-32 checksum.  The reference is the definition of RFC 1950
    sections 2.2 and 8.2: s1 is one plus the sum of the bytes, s2 the sum of the
    s1 values after each byte, both modulo 65521. */
module Adler32 {
  import opened Words

  const BASE: nat := 65521
  const MAX_COUNT: nat := 0x7fff_ffff

  // ----- The definition, without reduction -------------------------------------

  function Sum1(data: seq<byte>): nat
  {
    if data == [] then 1 else Sum1(data[..|data| - 1]) + data[|data| - 1] as nat
  }

  function Sum2(data: seq<byte>): nat
  {
    if data == [] then 0 else Sum2(data[..|data| - 1]) + Sum1(data)
  }

  /** What the first byte contributed to both sums. */
  lemma {:induction false} FirstByte(b: byte, rest: seq<byte>)
    ensures Sum1([b] + rest) == Sum1(rest) + b as nat
    ensures Sum2([b] + rest) == Sum2(rest) + (|rest| + 1) * b as nat + 1
  {
    var data := [b] + rest;
    if rest == [] {
      assert data == [b] && data[..0] == [];
    } else {
      var n := |rest| - 1;
      assert data[..|data| - 1] == [b] + rest[..n];
      FirstByte(b, rest[..n]);
    }
  }

  lemma SnocByte(data: seq<byte>, b: byte)
    ensures Sum1(data + [b]) == Sum1(data) + b as nat
    ensures Sum2(data + [b]) == Sum2(data) + Sum1(data) + b as nat
  {
    assert (data + [b])[..|data|] == data;
  }

  // ----- Arithmetic modulo 65521 ------------------------------------------------

  lemma ModAdd(x: nat, y: nat)
    requires y < BASE
    ensures (x + y) % BASE == if x % BASE + y >= BASE then x % BASE + y - BASE else x % BASE + y
  {
  }

  /** Subtracting modulo the base takes a sum back to its smaller part. */
  lemma ModSubtract(total: nat, part: nat)
    requires part <= total
    ensures var d := total % BASE - part % BASE;
      (total - part) % BASE == if d < 0 then d + BASE else d
  {
    var rest := total - part;
    ModAdd(rest, part % BASE);
    assert (rest + part % BASE) % BASE == total % BASE by {
      var k := part / BASE;
      assert part == k * BASE + part % BASE;
      AddMultiple(rest + part % BASE, k);
    }
  }

  lemma {:induction false} AddMultiple(x: nat, k: nat)
    ensures (x + k * BASE) % BASE == x % BASE
    decreases k
  {
    if k == 0 {
    } else {
      AddMultiple(x + BASE, k - 1);
    }
  }

  /** Reducing the count first does not change the amount to subtract. */
  lemma ReducedCount(count: nat, b: byte)
    ensures ((count % BASE) * b as nat + 1) % BASE == (count * b as nat + 1) % BASE
  {
    var q, r := count / BASE, count % BASE;
    assert count == q * BASE + r;
    assert count * b as nat == r * b as nat + (q * b as nat) * BASE;
    AddMultiple(r * b as nat + 1, q * b as nat);
  }

  class Adler32 {
    var s1: int
    var s2: int
    var count: int
    ghost var data: seq<byte>  // the bytes the checksum stands for

    ghost predicate Valid()
      reads this
    {
      && s1 == Sum1(data) % BASE
      && s2 == Sum2(data) % BASE
      && count == |data| <= MAX_COUNT
    }

    constructor ()
      ensures Valid() && data == []
    {
      s1, s2, count, data := 1, 0, 0, [];
    }

    method Add(contents: seq<byte>)
      requires Valid() && |data| + |contents| <= MAX_COUNT
      modifies this
      ensures Valid() && data == old(data) + contents
      ensures 0 <= s1 < BASE && 0 <= s2 < BASE
    {
      hide Sum1, Sum2;
      for i := 0 to |contents|
        invariant data == old(data) + contents[..i]
        invariant s1 == Sum1(data) % BASE && s2 == Sum2(data) % BASE
        invariant count == |old(data)|
      {
        var b := contents[i];
        ModAdd(Sum1(data), b);
        SnocByte(data, b);
        s1 := s1 + b;
        if s1 >= BASE { s1 := s1 - BASE; }
        AddReduced(Sum2(data), Sum1(data) + b as nat);
        s2 := s2 + s1;
        if s2 >= BASE { s2 := s2 - BASE; }
        data := data + [b];
        assert contents[..i + 1] == contents[..i] + [b];
      }
      count := count + |contents|;
      assert contents[..|contents|] == contents;
    }

    /** Takes bytes away from the front, as if they had never been added. */
    method Unadd(contents: seq<byte>)
      requires Valid() && contents <= data
      modifies this
      ensures Valid() && data == old(data)[|contents|..]
      ensures 0 <= s1 < BASE && 0 <= s2 < BASE
    {
      hide Sum1, Sum2;
      for i := 0 to |contents|
        invariant data == old(data)[i..]
        invariant Valid()
      {
        UnaddByte(contents[i]);
      }
    }

    /** One round of the loop of `unadd`. */
    method UnaddByte(b: byte)
      requires Valid() && data != [] && data[0] == b
      modifies this
      ensures Valid() && data == old(data)[1..]
    {
      hide Sum1, Sum2;
      ghost var rest := data[1..];
      RemoveFirst(data, b, count);
      s1 := s1 - b;
      if s1 < 0 { s1 := s1 + BASE; }
      var modCount := count;
      if modCount >= BASE { modCount := modCount % BASE; }
      var subtract := (modCount * b as int + 1) % BASE;
      s2 := s2 - subtract;
      if s2 < 0 { s2 := s2 + BASE; }
      count := count - 1;
      data := rest;
    }

    /** The checksum as four bytes, s2 first, most significant byte first. */
    method Get() returns (hash: seq<byte>)
      requires Valid()
      ensures |hash| == 4
      ensures ((hash[0] as nat * 256 + hash[1] as nat) * 256 + hash[2] as nat) * 256 + hash[3] as nat
           == (Sum2(data) % BASE) * 65536 + Sum1(data) % BASE
    {
      hide Sum1, Sum2;
      hash := [s2 / 256 % 256, s2 % 256, s1 / 256 % 256, s1 % 256];
    }
  }

  lemma RemoveFirst(data: seq<byte>, b: byte, count: nat)
    requires data != [] && data[0] == b && count == |data|
    ensures var d := Sum1(data) % BASE - b as nat;
      Sum1(data[1..]) % BASE == if d < 0 then d + BASE else d
    ensures var d := Sum2(data) % BASE - ((count % BASE) * b as nat + 1) % BASE;
      Sum2(data[1..]) % BASE == if d < 0 then d + BASE else d
  {
    hide Sum1, Sum2;
    var rest := data[1..];
    assert data == [b] + rest;
    FirstByte(b, rest);
    ReducedCount(count, b);
    SubtractPart(Sum1(data), Sum1(rest), b, b);
    SubtractPart(Sum2(data), Sum2(rest), count * b as nat + 1, ((count % BASE) * b as nat + 1) % BASE);
  }

  lemma SubtractPart(total: nat, rest: nat, part: nat, reduced: nat)
    requires total == rest + part && reduced == part % BASE
    ensures var d := total % BASE - reduced;
      rest % BASE == if d < 0 then d + BASE else d
  {
    ModSubtract(total, part);
  }

  lemma AddReduced(x: nat, y: nat)
    ensures var d := x % BASE + y % BASE;
      (x + y) % BASE == if d >= BASE then d - BASE else d
  {
    var k := y / BASE;
    assert y == k * BASE + y % BASE;
    AddMultiple(x + y % BASE, k);
    ModAdd(x, y % BASE);
  }

  /** The checksum of `abc`, known from elsewhere. */
  method ChecksumOfAbc() returns (hash: seq<byte>)
    ensures hash == [0x02, 0x4d, 0x01, 0x27]
  {
    var adler := new Adler32();
    adler.Add([0x61, 0x62, 0x63]);
    SumsOfAbc();
    assert [] + [0x61, 0x62, 0x63] == [0x61, 0x62, 0x63];
    hash := adler.Get();
  }

  lemma SumsOfAbc()
    ensures Sum1([0x61, 0x62, 0x63]) == 0x127 && Sum2([0x61, 0x62, 0x63]) == 0x24d
  {
    SnocByte([], 0x61);
    SnocByte([0x61], 0x62);
    SnocByte([0x61, 0x62], 0x63);
    assert [] + [0x61] == [0x61] && [0x61] + [0x62] == [0x61, 0x62] && [0x61, 0x62] + [0x63] == [0x61, 0x62, 0x63];
  }
}

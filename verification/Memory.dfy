/** Raw memory: bytes, the 8-byte little-endian links that free blocks carry in their
    own storage, and the 2-byte headers in front of every block. Addresses are counted
    from the start of the arena; 0 is the null pointer. */
module Memory {
  import opened Bits

  type Byte = b: nat | b < 256

  /** Every address fits in 48 bits, so the top two bytes of a stored link are zero. */
  const ADDRESS_LIMIT: nat := 0x1_0000_0000_0000
  const LINK_BYTES: nat := 8
  const HEADER_BYTES: nat := 2

  function Pow256(n: nat): (p: nat)
    ensures p > 0
  {
    if n == 0 then 1 else 256 * Pow256(n - 1)
  }

  /** The low `n` bytes of `v`, least significant first. */
  function Encode(v: nat, n: nat): (s: seq<Byte>)
    ensures |s| == n
  {
    if n == 0 then [] else [v % 256] + Encode(v / 256, n - 1)
  }

  /** Two bytes as a number, low byte first. */
  function Word(low: nat, high: nat): nat {
    low + 256 * high
  }

  function Decode(s: seq<Byte>): nat {
    if s == [] then 0 else Word(s[0], Decode(s[1..]))
  }

  lemma {:induction false} DecodeEncode(v: nat, n: nat)
    requires v < Pow256(n)
    ensures Decode(Encode(v, n)) == v
  {
    if n > 0 {
      DecodeEncode(v / 256, n - 1);
      assert Encode(v, n)[1..] == Encode(v / 256, n - 1);
    }
  }

  /** Bytes above the top byte of a small value are zero. */
  lemma {:induction false} HighBytesZero(v: nat, k: nat, n: nat, j: nat)
    requires v < Pow256(k) && k <= j < n
    ensures Encode(v, n)[j] == 0
  {
    if k == 0 {
      if j > 0 { HighBytesZero(0, 0, n - 1, j - 1); }
    } else {
      HighBytesZero(v / 256, k - 1, n - 1, j - 1);
    }
  }

  /** The last two of eight bytes weigh 2^48 and 2^56. */
  lemma {:induction false} DecodeEight(s: seq<Byte>)
    requires |s| == 8
    ensures Decode(s) == Low48(s) + ADDRESS_LIMIT * Word(s[6], s[7])
  {
    var a, b, c, d := s[1..], s[2..], s[3..], s[4..];
    var e, f, g := s[5..], s[6..], s[7..];
    assert a[1..] == b && b[1..] == c && c[1..] == d && d[1..] == e && e[1..] == f && f[1..] == g;
    assert g[1..] == [];
    assert Decode(g) == s[7] && Decode(f) == Word(s[6], Decode(g));
    assert Decode(e) == Word(s[5], Decode(f)) && Decode(d) == Word(s[4], Decode(e));
    assert Decode(c) == Word(s[3], Decode(d)) && Decode(b) == Word(s[2], Decode(c));
  }

  /** What decodes to an address has zeros in its top two bytes. */
  lemma {:induction false} SmallTop(s: seq<Byte>)
    requires |s| == 8 && Decode(s) < ADDRESS_LIMIT
    ensures s[6] == 0 && s[7] == 0
  {
    DecodeEight(s);
  }

  function Low48(s: seq<Byte>): nat
    requires |s| == 8
  {
    Word(s[0], Word(s[1], Word(s[2], Word(s[3], Word(s[4], s[5])))))
  }

  lemma {:induction false} LinkRange()
    ensures Pow256(6) == ADDRESS_LIMIT && ADDRESS_LIMIT < Pow256(LINK_BYTES)
  {
    assert Pow256(2) == 0x1_0000 && Pow256(4) == 0x1_0000_0000;
  }

  // ---------------------------------------------------------------- links and headers

  function ReadLink(m: seq<Byte>, a: nat): nat
    requires a + LINK_BYTES <= |m|
  {
    Decode(m[a..a + LINK_BYTES])
  }

  /** Memory after storing `bytes` from address `a` on. */
  function Store(m: seq<Byte>, a: nat, bytes: seq<Byte>): (m': seq<Byte>)
    requires a + |bytes| <= |m|
    ensures |m'| == |m|
    ensures forall i | 0 <= i < |m| && (i < a || i >= a + |bytes|) :: m'[i] == m[i]
    ensures forall i | 0 <= i < |bytes| :: m'[a + i] == bytes[i]
    decreases |bytes|
  {
    if bytes == [] then m else Store(m[a := bytes[0]], a + 1, bytes[1..])
  }

  function WriteLink(m: seq<Byte>, a: nat, v: nat): (m': seq<Byte>)
    requires a + LINK_BYTES <= |m|
    ensures |m'| == |m|
    ensures forall i | 0 <= i < |m| && (i < a || i >= a + LINK_BYTES) :: m'[i] == m[i]
  {
    Store(m, a, Encode(v, LINK_BYTES))
  }

  /** The two header bytes in front of block address `b`. */
  function ReadHeader(m: seq<Byte>, b: nat): nat
    requires HEADER_BYTES <= b <= |m|
  {
    Word(m[b - 2], m[b - 1])
  }

  function WriteHeader(m: seq<Byte>, b: nat, index: nat): (m': seq<Byte>)
    requires HEADER_BYTES <= b <= |m|
    ensures |m'| == |m|
    ensures forall i | 0 <= i < |m| && i != b - 2 && i != b - 1 :: m'[i] == m[i]
    ensures index < 0x1_0000 ==> ReadHeader(m', b) == index
  {
    m[b - 2 := index % 256][b - 1 := index / 256 % 256]
  }

  /** A link that was stored is read back, and its top two bytes are zero. */
  lemma {:induction false} StoredLink(m: seq<Byte>, a: nat, v: nat)
    requires a + LINK_BYTES <= |m| && v < ADDRESS_LIMIT
    ensures ReadLink(WriteLink(m, a, v), a) == v
    ensures WriteLink(m, a, v)[a + 6] == 0 && WriteLink(m, a, v)[a + 7] == 0
  {
    LinkRange();
    DecodeEncode(v, LINK_BYTES);
    HighBytesZero(v, 6, LINK_BYTES, 6);
    HighBytesZero(v, 6, LINK_BYTES, 7);
    assert WriteLink(m, a, v)[a..a + LINK_BYTES] == Encode(v, LINK_BYTES);
  }

  lemma {:induction false} SameLink(m: seq<Byte>, m': seq<Byte>, b: nat)
    requires |m| == |m'| && b + LINK_BYTES <= |m|
    requires forall i | b <= i < b + LINK_BYTES :: m'[i] == m[i]
    ensures ReadLink(m', b) == ReadLink(m, b)
  {
    assert m'[b..b + LINK_BYTES] == m[b..b + LINK_BYTES];
  }

  /** Storing zeros over the top two bytes of a stored address changes nothing. */
  lemma {:induction false} ZeroTopKeepsLink(m: seq<Byte>, m': seq<Byte>, b: nat)
    requires |m| == |m'| && b + LINK_BYTES <= |m| && ReadLink(m, b) < ADDRESS_LIMIT
    requires forall i | b <= i < b + 6 :: m'[i] == m[i]
    requires m'[b + 6] == 0 && m'[b + 7] == 0
    ensures ReadLink(m', b) == ReadLink(m, b)
  {
    var s := m[b..b + LINK_BYTES];
    SmallTop(s);
    assert m[b + 6] == s[6] == 0 && m[b + 7] == s[7] == 0;
    forall i | b <= i < b + LINK_BYTES ensures m'[i] == m[i] {
      if i >= b + 6 { assert i == b + 6 || i == b + 7; }
    }
    SameLink(m, m', b);
  }

  // ---------------------------------------------------------------- memory in place

  method LoadLink(mem: array<Byte>, a: nat) returns (v: nat)
    requires a + LINK_BYTES <= mem.Length
    ensures v == ReadLink(mem[..], a)
  {
    v := 0;
    ghost var bytes := mem[a..a + LINK_BYTES];
    assert bytes[LINK_BYTES..] == [];
    var j := LINK_BYTES;
    while j > 0
      invariant 0 <= j <= LINK_BYTES && v == Decode(bytes[j..])
    {
      j := j - 1;
      assert bytes[j..][1..] == bytes[j + 1..];
      v := Word(mem[a + j], v);
    }
    assert bytes[0..] == bytes == mem[..][a..a + LINK_BYTES];
  }

  method StoreLink(mem: array<Byte>, a: nat, v: nat)
    requires a + LINK_BYTES <= mem.Length
    modifies mem
    ensures mem[..] == WriteLink(old(mem[..]), a, v)
  {
    var rest := v;
    var j := 0;
    while j < LINK_BYTES
      invariant 0 <= j <= LINK_BYTES
      invariant Encode(v, LINK_BYTES)[j..] == Encode(rest, LINK_BYTES - j)
      invariant forall i | 0 <= i < j :: mem[a + i] == Encode(v, LINK_BYTES)[i]
      invariant forall i | 0 <= i < mem.Length && (i < a || i >= a + j) :: mem[i] == old(mem[i])
    {
      assert Encode(v, LINK_BYTES)[j] == Encode(rest, LINK_BYTES - j)[0];
      mem[a + j] := rest % 256;
      rest := rest / 256;
      j := j + 1;
      assert Encode(v, LINK_BYTES)[j..] == Encode(v, LINK_BYTES)[j - 1..][1..];
    }
    assert mem[a..a + LINK_BYTES] == Encode(v, LINK_BYTES);
    assert mem[..] == mem[..a] + mem[a..a + LINK_BYTES] + mem[a + LINK_BYTES..];
  }

  method LoadHeader(mem: array<Byte>, b: nat) returns (index: nat)
    requires HEADER_BYTES <= b <= mem.Length
    ensures index == ReadHeader(mem[..], b) < 0x1_0000
    ensures index % 256 == mem[b - 2] && index / 256 == mem[b - 1]
  {
    index := Word(mem[b - 2], mem[b - 1]);
  }

  method StoreHeader(mem: array<Byte>, b: nat, index: nat)
    requires HEADER_BYTES <= b <= mem.Length
    modifies mem
    ensures mem[..] == WriteHeader(old(mem[..]), b, index)
    ensures mem[b - 2] == And(index, 0xFF) && mem[b - 1] == And(Shr(index, 8), 0xFF)
  {
    LowByte(index);
    LowByte(Shr(index, 8));
    mem[b - 2] := And(index, 0xFF);
    mem[b - 1] := And(Shr(index, 8), 0xFF);
  }

  lemma {:induction false} LowByte(x: nat)
    ensures And(x, 0xFF) == x % 256 && Shr(x, 8) == x / 256
  {
    assert Pow2(8) == 256;
    MaskIsMod(x, 8);
    ShiftIsDiv(x, 8);
  }
}

/** Key derivation: the in-place loops against the recursive definition of section 5.2 of RFC 8018. */
module Pbkdf2 {
  import opened BitStream
  import opened Bytes

  const HASH_LEN := 32

  type Digest = s: seq<Byte> | |s| == HASH_LEN witness seq(HASH_LEN, i => 0)

  /** The pseudorandom function, from a key and a message; left abstract. */
  type Prf = (seq<Byte>, seq<Byte>) -> Digest

  /** U_j, for j at least 1: the salt and block index first, then each value from the one before. */
  function U(prf: Prf, password: seq<Byte>, salt: seq<Byte>, block: nat, j: nat): Digest
    requires j > 0
  {
    prf(password, if j == 1 then salt + BigEndian(block, 4) else U(prf, password, salt, block, j - 1))
  }

  /** U_1 ^ U_2 ^ ... ^ U_c. */
  function T(prf: Prf, password: seq<Byte>, salt: seq<Byte>, block: nat, c: nat): Digest
    requires c > 0
  {
    if c == 1 then U(prf, password, salt, block, 1)
    else XorBytes(T(prf, password, salt, block, c - 1), U(prf, password, salt, block, c))
  }

  /** T_1 || T_2 || ... || T_n. */
  function Blocks(prf: Prf, password: seq<Byte>, salt: seq<Byte>, c: nat, n: nat): (s: seq<Byte>)
    requires c > 0
    ensures |s| == n * HASH_LEN
  {
    if n == 0 then [] else Blocks(prf, password, salt, c, n - 1) + T(prf, password, salt, n, c)
  }

  /** How many blocks cover the key. */
  function BlockCount(keyLen: nat): (n: nat)
    ensures n * HASH_LEN >= keyLen
  {
    (keyLen + HASH_LEN - 1) / HASH_LEN
  }

  /** The derived key. An iteration count below 1 acts as 1. */
  function Key(prf: Prf, password: seq<Byte>, salt: seq<Byte>, iter: int, keyLen: nat): (k: seq<Byte>)
    ensures |k| == keyLen
  {
    Blocks(prf, password, salt, if iter < 1 then 1 else iter, BlockCount(keyLen))[..keyLen]
  }

  // --- properties ---

  lemma {:induction false} BlocksPrefix(prf: Prf, password: seq<Byte>, salt: seq<Byte>, c: nat, m: nat, n: nat)
    requires c > 0 && m <= n
    ensures Blocks(prf, password, salt, c, m) <= Blocks(prf, password, salt, c, n)
  {
    hide T;
    if m < n { BlocksPrefix(prf, password, salt, c, m, n - 1); }
  }

  /** In how many of U_1 .. U_c bit k of byte m is set. */
  function BitCount(prf: Prf, password: seq<Byte>, salt: seq<Byte>, block: nat, c: nat, m: nat, k: nat): nat
    requires m < HASH_LEN
  {
    if c == 0 then 0
    else
      var last := if Bit(U(prf, password, salt, block, c)[m], k) then 1 else 0;
      BitCount(prf, password, salt, block, c - 1, m, k) + last
  }

  /** Each bit of a block is the parity of that bit over all its rounds. */
  lemma {:induction false} BlockBit(prf: Prf, password: seq<Byte>, salt: seq<Byte>, block: nat, c: nat, m: nat, k: nat)
    requires c > 0 && m < HASH_LEN && k < 8
    ensures Bit(T(prf, password, salt, block, c)[m], k) <==> BitCount(prf, password, salt, block, c, m, k) % 2 == 1
  {
    hide Bit; hide Xor; hide U;
    if c == 1 {
      assert BitCount(prf, password, salt, block, 0, m, k) == 0;
    } else {
      BlockBit(prf, password, salt, block, c - 1, m, k);
      XorBit(T(prf, password, salt, block, c - 1)[m], U(prf, password, salt, block, c)[m], k);
    }
  }

  /** The rounds: the salt and four index bytes, highest first, then each value hashed again. */
  lemma Rounds(prf: Prf, password: seq<Byte>, salt: seq<Byte>, block: nat, j: nat)
    requires j > 0
    ensures block < 256 ==> U(prf, password, salt, block, 1) == prf(password, salt + [0, 0, 0, block])
    ensures U(prf, password, salt, block, j + 1) == prf(password, U(prf, password, salt, block, j))
  {
    if block < 256 {
      assert BigEndian(0, 1) == [0];
      assert BigEndian(0, 2) == BigEndian(0, 1) + [0];
      assert BigEndian(0, 3) == BigEndian(0, 2) + [0];
      assert BigEndian(block, 4) == [0, 0, 0, block];
    }
  }

  /** Every bit of a derived key, from the rounds of its block. */
  lemma KeyBit(prf: Prf, password: seq<Byte>, salt: seq<Byte>, iter: int, keyLen: nat, n: nat, k: nat)
    requires n < keyLen && k < 8
    ensures Bit(Key(prf, password, salt, iter, keyLen)[n], k)
        <==> BitCount(prf, password, salt, n / 32 + 1, if iter < 1 then 1 else iter, n % 32, k) % 2 == 1
  {
    hide Bit; hide T; hide Key; hide BitCount;
    KeyByte(prf, password, salt, iter, keyLen, n);
    BlockBit(prf, password, salt, n / 32 + 1, if iter < 1 then 1 else iter, n % 32, k);
  }

  /** A shorter key is a prefix of a longer one. */
  lemma ShorterKeyIsPrefix(prf: Prf, password: seq<Byte>, salt: seq<Byte>, iter: int, short: nat, long: nat)
    requires short <= long
    ensures Key(prf, password, salt, iter, short) == Key(prf, password, salt, iter, long)[..short]
  {
    var c := if iter < 1 then 1 else iter;
    CountMonotone(short, long);
    BlocksPrefix(prf, password, salt, c, BlockCount(short), BlockCount(long));
    hide Blocks; hide BlockCount;
  }

  lemma CountMonotone(short: nat, long: nat)
    requires short <= long
    ensures BlockCount(short) <= BlockCount(long)
  {}

  /** Byte k of the key is byte k mod 32 of the block it falls in. */
  lemma KeyByte(prf: Prf, password: seq<Byte>, salt: seq<Byte>, iter: int, keyLen: nat, k: nat)
    requires k < keyLen
    ensures Key(prf, password, salt, iter, keyLen)[k]
              == T(prf, password, salt, k / HASH_LEN + 1, if iter < 1 then 1 else iter)[k % HASH_LEN]
  {
    var c := if iter < 1 then 1 else iter;
    Position(k, keyLen);
    BlocksPrefix(prf, password, salt, c, k / HASH_LEN + 1, BlockCount(keyLen));
    hide T; hide BlockCount;
  }

  lemma Position(k: nat, keyLen: nat)
    requires k < keyLen
    ensures k / HASH_LEN + 1 <= BlockCount(keyLen) && k == k / HASH_LEN * HASH_LEN + k % HASH_LEN
  {}

  /** Up to the length limit of the RFC every block has its own index; past it the four index bytes come round again. */
  lemma IndexBytes(a: nat, b: nat)
    ensures a < Pow256(4) && b < Pow256(4) && BigEndian(a, 4) == BigEndian(b, 4) ==> a == b
    ensures BigEndian(a + Pow256(4), 4) == BigEndian(a, 4)
  {
    hide BigEndian; hide Pow256;
    if a < Pow256(4) && b < Pow256(4) {
      NumberOfBigEndian(a, 4);
      NumberOfBigEndian(b, 4);
    }
    BigEndianWraps(a, 1, 4);
  }

  // --- the loops ---

  method XorInto(t: array<Byte>, u: array<Byte>)
    requires t.Length == u.Length && t != u
    modifies t
    ensures t[..] == XorBytes(old(t[..]), u[..])
  {
    hide Xor;
    for j := 0 to t.Length
      invariant forall k :: 0 <= k < j ==> t[k] == Xor(old(t[k]), u[k])
      invariant forall k :: j <= k < t.Length ==> t[k] == old(t[k])
    {
      t[j] := Xor(t[j], u[j]);
    }
  }

  /** One block; `u` is reused for every round and the rounds are folded into `t`. */
  method Block(prf: Prf, password: seq<Byte>, salt: seq<Byte>, iter: int, block: nat) returns (t: array<Byte>)
    ensures fresh(t) && t[..] == T(prf, password, salt, block, if iter < 1 then 1 else iter)
  {
    hide XorBytes; hide BigEndian;
    var u := new Byte[HASH_LEN];
    CopyInto(u, prf(password, salt + BigEndian(block, 4)));
    t := new Byte[HASH_LEN];
    CopyInto(t, u[..]);
    var i := 1;
    while i < iter
      invariant 1 <= i && (i <= iter || i == 1) && t != u
      invariant u[..] == U(prf, password, salt, block, i) && t[..] == T(prf, password, salt, block, i)
    {
      CopyInto(u, prf(password, u[..]));
      XorInto(t, u);
      i := i + 1;
    }
  }

  method Derive(prf: Prf, password: seq<Byte>, salt: seq<Byte>, iter: int, keyLen: nat) returns (dk: seq<Byte>)
    ensures dk == Key(prf, password, salt, iter, keyLen)
  {
    hide T;
    var blocks := (keyLen + HASH_LEN - 1) / HASH_LEN;
    dk := [];
    for block := 1 to blocks + 1
      invariant dk == Blocks(prf, password, salt, if iter < 1 then 1 else iter, block - 1)
    {
      var t := Block(prf, password, salt, iter, block);
      dk := dk + t[..];
    }
    dk := dk[..keyLen];
  }
}

/** Integers as bytes: what a host keeps in memory and what goes over the wire. */
module DscBytes {
  import opened Division

  type Byte = x: int | 0 <= x < 256

  datatype Host = LittleEndian | BigEndian

  function Pow256(k: nat): (p: nat)
    ensures p > 0
  {
    if k == 0 then 1 else 256 * Pow256(k - 1)
  }

  lemma Powers()
    ensures Pow256(0) == 1 && Pow256(1) == 0x100 && Pow256(2) == 0x1_0000 && Pow256(3) == 0x100_0000
    ensures Pow256(4) == 0x1_0000_0000 && Pow256(5) == 0x100_0000_0000 && Pow256(6) == 0x1_0000_0000_0000
    ensures Pow256(7) == 0x100_0000_0000_0000 && Pow256(8) == 0x1_0000_0000_0000_0000
  {
  }

  /** The lowest `w` bytes of `v`, highest first. */
  function Big(v: nat, w: nat): (b: seq<Byte>)
    ensures |b| == w
  {
    if w == 0 then [] else Big(v / 256, w - 1) + [v % 256]
  }

  /** The lowest `w` bytes of `v`, lowest first. */
  function Little(v: nat, w: nat): (b: seq<Byte>)
    ensures |b| == w
  {
    if w == 0 then [] else [v % 256] + Little(v / 256, w - 1)
  }

  /** The number that bytes stand for, highest first. */
  function Value(b: seq<Byte>): nat {
    if b == [] then 0 else 256 * Value(b[..|b| - 1]) + b[|b| - 1]
  }

  function Reverse(b: seq<Byte>): (r: seq<Byte>)
    ensures |r| == |b|
  {
    if b == [] then [] else Reverse(b[1..]) + [b[0]]
  }

  /** How a host keeps the number `v` in `w` bytes of memory. */
  function Store(v: nat, w: nat, host: Host): (b: seq<Byte>)
    ensures |b| == w
  {
    if host == LittleEndian then Little(v, w) else Big(v, w)
  }

  /** The number a host reads from memory. */
  function Fetch(b: seq<Byte>, host: Host): nat {
    if host == LittleEndian then Value(Reverse(b)) else Value(b)
  }

  // ---------------------------------------------------------------- digits

  /** Byte `i` from the front is the digit with that many digits behind it. */
  lemma {:induction false} BigAt(v: nat, w: nat, i: nat)
    requires i < w
    ensures Big(v, w)[i] == v / Pow256(w - 1 - i) % 256
  {
    if i < w - 1 {
      BigAt(v / 256, w - 1, i);
      DivTwice(v, 256, Pow256(w - 2 - i));
    }
  }

  lemma DivTwice(v: nat, a: nat, b: nat)
    requires a > 0 && b > 0
    ensures a * b > 0 && v / a / b == v / (a * b)
  {
    var q, r, s := v / a / b, v / a % b, v % a;
    assert v == (q * b + r) * a + s;
    Product(q, a, b, r, s);
    ModIs(v, a * b, q, r * a + s);
  }

  lemma Product(q: nat, a: nat, b: nat, r: nat, s: nat)
    requires r < b && s < a
    ensures a * b > 0 && (q * b + r) * a + s == q * (a * b) + (r * a + s) && r * a + s < a * b
  {
    Multiple(b - 1 - r, a);
    assert (b - 1 - r) * a == a * b - a - r * a;
    if b - 1 - r >= 0 { assert (b - 1 - r) * a >= 0; }
  }

  lemma {:induction false} BigSplit(a: nat, b: nat, j: nat, k: nat)
    requires b < Pow256(k)
    ensures Big(a * Pow256(k) + b, j + k) == Big(a, j) + Big(b, k)
  {
    if k > 0 {
      var v := a * Pow256(k) + b;
      assert v == 256 * (a * Pow256(k - 1)) + b by { Regroup(a, Pow256(k - 1)); }
      assert v / 256 == a * Pow256(k - 1) + b / 256 && v % 256 == b % 256;
      BigSplit(a, b / 256, j, k - 1);
    } else {
      assert Big(a * Pow256(k) + b, j + k) == Big(a, j) + [];
    }
  }

  lemma Regroup(a: nat, p: nat)
    ensures a * (256 * p) == 256 * (a * p)
  {
  }

  lemma {:induction false} LittleIsReverse(v: nat, w: nat)
    ensures Reverse(Little(v, w)) == Big(v, w)
  {
    if w > 0 {
      LittleIsReverse(v / 256, w - 1);
      assert Little(v, w)[1..] == Little(v / 256, w - 1);
    }
  }

  lemma {:induction false} ReverseLast(b: seq<Byte>, x: Byte)
    ensures Reverse(b + [x]) == [x] + Reverse(b)
  {
    if b != [] {
      assert (b + [x])[1..] == b[1..] + [x];
      ReverseLast(b[1..], x);
    }
  }

  lemma {:induction false} ReverseTwice(b: seq<Byte>)
    ensures Reverse(Reverse(b)) == b
  {
    if b != [] {
      ReverseLast(Reverse(b[1..]), b[0]);
      ReverseTwice(b[1..]);
    }
  }

  lemma {:induction false} ValueOfBig(v: nat, w: nat)
    ensures Value(Big(v, w)) == v % Pow256(w)
  {
    if w > 0 {
      ValueOfBig(v / 256, w - 1);
      var b := Big(v, w);
      assert b[..|b| - 1] == Big(v / 256, w - 1);
      ModStep(v, Pow256(w - 1));
    }
  }

  lemma ModStep(v: nat, p: nat)
    requires p > 0
    ensures 256 * (v / 256 % p) + v % 256 == v % (256 * p)
  {
    var q, r := v / 256 / p, v / 256 % p;
    assert v / 256 == q * p + r;
    assert v == q * (256 * p) + (256 * r + v % 256) by { Regroup(q, p); }
    ModIs(v, 256 * p, q, 256 * r + v % 256);
  }

  lemma {:induction false} BigOfValue(b: seq<Byte>)
    ensures Big(Value(b), |b|) == b && Value(b) < Pow256(|b|)
  {
    if b != [] {
      BigOfValue(b[..|b| - 1]);
      assert b == b[..|b| - 1] + [b[|b| - 1]];
    }
  }

  /** A host stores what it has read. */
  lemma StoreFetched(b: seq<Byte>, host: Host)
    ensures Store(Fetch(b, host), |b|, host) == b && Fetch(b, host) < Pow256(|b|)
  {
    BigOfValue(b);
    BigOfValue(Reverse(b));
    LittleIsReverse(Value(Reverse(b)), |b|);
    ReverseTwice(b);
    ReverseTwice(Little(Value(Reverse(b)), |b|));
  }

  // ---------------------------------------------------------------- network order

  /** htonl: the number that this host stores as the big-endian bytes of `v`. */
  function Htonl(v: nat, host: Host): nat { Fetch(Big(v, 4), host) }

  /** ntohl: the number whose big-endian bytes this host has read as `v`. */
  function Ntohl(v: nat, host: Host): nat { Value(Store(v, 4, host)) }

  function LowHalf(v: nat): nat { v % Pow256(4) }
  function HighHalf(v: nat): nat { v / Pow256(4) }

  lemma Halves(v: nat)
    ensures v == HighHalf(v) * Pow256(4) + LowHalf(v) && LowHalf(v) < Pow256(4)
    ensures v < Pow256(8) ==> HighHalf(v) < Pow256(4)
  {
    Powers();
  }

  /** __HTONLL: the two halves change places on a little-endian host. */
  function Htonll(v: nat, host: Host): nat {
    if host == LittleEndian then Htonl(LowHalf(v), host) * Pow256(4) + Htonl(HighHalf(v), host) else v
  }

  /** __NTOHLL. */
  function Ntohll(v: nat, host: Host): nat {
    if host == LittleEndian then Ntohl(LowHalf(v), host) * Pow256(4) + Ntohl(HighHalf(v), host) else v
  }

  lemma HtonlStored(v: nat, host: Host)
    ensures Store(Htonl(v, host), 4, host) == Big(v, 4) && Htonl(v, host) < Pow256(4)
  {
    StoreFetched(Big(v, 4), host);
  }

  lemma {:induction false} ReverseSum(a: seq<Byte>, b: seq<Byte>)
    ensures Reverse(a + b) == Reverse(b) + Reverse(a)
  {
    if a == [] {
      assert a + b == b;
    } else {
      assert (a + b)[1..] == a[1..] + b;
      ReverseSum(a[1..], b);
    }
  }

  lemma LittleSplit(a: nat, b: nat)
    requires b < Pow256(4)
    ensures Little(a * Pow256(4) + b, 8) == Little(b, 4) + Little(a, 4)
  {
    var v := a * Pow256(4) + b;
    BigSplit(a, b, 4, 4);
    LittleIsReverse(v, 8);
    LittleIsReverse(a, 4);
    LittleIsReverse(b, 4);
    ReverseSum(Little(b, 4), Little(a, 4));
    ReverseTwice(Little(v, 8));
    ReverseTwice(Little(b, 4) + Little(a, 4));
  }

  /** __HTONLL puts the big-endian bytes into memory on either host. */
  lemma HtonllStored(v: nat, host: Host)
    requires v < Pow256(8)
    ensures Store(Htonll(v, host), 8, host) == Big(v, 8)
  {
    hide Big, Little, Pow256, Htonl, LowHalf, HighHalf;
    if host == LittleEndian {
      var lo, hi := LowHalf(v), HighHalf(v);
      Halves(v);
      HtonlStored(lo, host);
      HtonlStored(hi, host);
      LittleSplit(Htonl(lo, host), Htonl(hi, host));
      BigSplit(hi, lo, 4, 4);
    }
  }

  /** __NTOHLL reads big-endian bytes on either host. */
  lemma NtohllFetched(b: seq<Byte>, host: Host)
    requires |b| == 8
    ensures Ntohll(Fetch(b, host), host) == Value(b)
  {
    hide Big, Little, Pow256, Value, Reverse, Fetch, LowHalf, HighHalf;
    if host == LittleEndian {
      var v := Fetch(b, host);
      var lo, hi := LowHalf(v), HighHalf(v);
      StoreFetched(b, host);
      Halves(v);
      LittleSplit(hi, lo);
      ValueSum(Little(lo, 4), Little(hi, 4));
    } else {
      assert Fetch(b, host) == Value(b) by { BigFetched(b); }
    }
  }

  lemma BigFetched(b: seq<Byte>)
    ensures Fetch(b, BigEndian) == Value(b)
  {
  }

  lemma {:induction false} ValueSum(a: seq<Byte>, b: seq<Byte>)
    ensures Value(a + b) == Value(a) * Pow256(|b|) + Value(b)
  {
    if b == [] {
      assert a + b == a;
    } else {
      var c, x := b[..|b| - 1], b[|b| - 1];
      assert (a + b)[..|a + b| - 1] == a + c && (a + b)[|a + b| - 1] == x;
      ValueSum(a, c);
      Horner(Value(a), Pow256(|c|), Value(c), x);
    }
  }

  lemma Horner(a: nat, p: nat, c: nat, x: nat)
    ensures 256 * (a * p + c) + x == a * (256 * p) + (256 * c + x)
  {
  }

  lemma NtohlFetched(b: seq<Byte>, host: Host)
    requires |b| == 4
    ensures Ntohl(Fetch(b, host), host) == Value(b)
  {
    StoreFetched(b, host);
  }
}

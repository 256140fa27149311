/** The COMPRESS and UNCOMPRESS macros of test2/IDL_hello_world.dsc.h. */
module DscCodec {
  import opened Division
  import opened DscBytes

  // ---------------------------------------------------------------- what the bytes say

  /** `x` as a signed integer of `w` bytes. */
  function Wrap(x: int, w: nat): int {
    var m := x % Pow256(w);
    if 2 * m >= Pow256(w) then m - Pow256(w) else m
  }

  predicate InSigned(x: int, w: nat) { 0 <= 2 * x + Pow256(w) && 2 * x < Pow256(w) }
  function Abs(x: int): nat { if x < 0 then -x else x }

  /** How many bytes a magnitude takes: as few as possible, at least one. */
  function Len(h: nat): (n: nat)
    ensures n >= 1 && h < Pow256(n) && (n > 1 ==> h >= Pow256(n - 1))
  {
    if h < 256 then assert h < Pow256(1); 1 else 1 + Len(h / 256)
  }

  const SIGN: int := 0x10

  predicate Flag(f: int) { f == 0 || f == SIGN }

  /** The header byte, then the magnitude, highest byte first. */
  function Encoded(flag: int, h: nat): (b: seq<Byte>)
    requires Flag(flag) && Len(h) < 16
    ensures |b| == 1 + Len(h)
  {
    [flag + Len(h)] + Big(h, Len(h))
  }

  /** The integer that a header and its payload say. */
  function Signed(header: Byte, payload: seq<Byte>, w: nat): int {
    var v := Wrap(Value(payload), w);
    if header / 16 % 2 == 1 then Wrap(-v, w) else v
  }

  /** What "signed integer of four or eight bytes" means. */
  lemma Ranges(x: int)
    ensures InSigned(x, 4) <==> -0x8000_0000 <= x < 0x8000_0000
    ensures InSigned(x, 8) <==> -0x8000_0000_0000_0000 <= x < 0x8000_0000_0000_0000
  {
    Powers();
  }

  lemma {:induction false} LenAtMost(h: nat, w: nat)
    requires h < Pow256(w) && w >= 1
    ensures Len(h) <= w
  {
    if Len(h) > w { PowMonotonic(w, Len(h) - 1); }
  }

  lemma {:induction false} PowMonotonic(a: nat, b: nat)
    requires a <= b
    ensures Pow256(a) <= Pow256(b)
  {
    if a < b { PowMonotonic(a, b - 1); }
  }

  lemma LenIs(h: nat, n: nat)
    requires n >= 1 && h < Pow256(n) && (n > 1 ==> h >= Pow256(n - 1))
    ensures Len(h) == n
  {
    LenAtMost(h, n);
    if Len(h) < n { PowMonotonic(Len(h), n - 1); }
  }

  lemma WrapIs(x: int, w: nat)
    requires InSigned(x, w)
    ensures Wrap(x, w) == x
  {
    var p := Pow256(w);
    if x >= 0 {
      ModIs(x, p, 0, x);
    } else {
      NegativeMod(x, p);
    }
  }

  lemma NegativeMod(x: int, p: nat)
    requires 0 <= x + p && x < 0
    ensures x % p == x + p
  {
  }

  /** Negation within `w` bytes: the least integer is its own negation. */
  lemma Negated(h: nat, w: nat)
    requires 2 * h <= Pow256(w)
    ensures h % Pow256(w) == h && Wrap(h, w) == (if 2 * h < Pow256(w) then h else 0 - h)
    ensures Wrap(-Wrap(h, w), w) == 0 - h
  {
    ModIs(h, Pow256(w), 0, h);
    if h > 0 { NegativeMod(0 - h, Pow256(w)); }
    if 2 * h < Pow256(w) { WrapIs(0 - h, w); }
  }

  /** The magnitude that the encoders take, also of the least integer. */
  lemma MagnitudeIs(x: int, w: nat)
    requires InSigned(x, w)
    ensures x < 0 ==> Wrap(-x, w) % Pow256(w) == Abs(x)
    ensures Abs(x) < Pow256(w) && 2 * Abs(x) <= Pow256(w)
  {
    Negated(Abs(x), w);
    if x < 0 && 2 * Abs(x) == Pow256(w) { NegativeMod(x, Pow256(w)); }
  }

  /** The bytes of a code: bit 4 of the header is the sign, its low half the number of bytes of the magnitude. */
  lemma EncodedBytes(negative: bool, h: nat)
    requires Len(h) < 16
    ensures var b, n := Encoded(if negative then SIGN else 0, h), Len(h);
      && b[0] == (if negative then 0x10 else 0) + n
      && forall i {:trigger b[i]} :: 1 <= i <= n ==> b[i] == h / Pow256(n - i) % 256
  {
    hide Len, Pow256, Big;
    var n := Len(h);
    var b := Encoded(if negative then SIGN else 0, h);
    forall i | 1 <= i <= n ensures b[i] == h / Pow256(n - i) % 256 {
      BigAt(h, n, i - 1);
    }
  }

  /** What a header and its payload say: bit 4 negates, and the result wraps around within `w` bytes. */
  lemma SignedSays(header: Byte, payload: seq<Byte>, w: nat)
    requires |payload| <= w
    ensures var v, p, x := Value(payload), Pow256(w), Signed(header, payload, w);
      && v < p
      && (header / 16 % 2 == 0 ==> x == if 2 * v < p then v else v - p)
      && (header / 16 % 2 == 1 ==> x == if 2 * v <= p then 0 - v else p - v)
  {
    hide Wrap, Value, Pow256;
    var v := Value(payload);
    BigOfValue(payload);
    PowMonotonic(|payload|, w);
    NegatedAny(v, w);
  }

  lemma NegatedAny(v: nat, w: nat)
    requires v < Pow256(w)
    ensures var p := Pow256(w);
      && Wrap(v, w) == (if 2 * v < p then v else v - p)
      && Wrap(-Wrap(v, w), w) == (if 2 * v <= p then 0 - v else p - v)
  {
    hide Pow256;
    var p := Pow256(w);
    ModIs(v, p, 0, v);
    if 2 * v <= p {
      Negated(v, w);
    } else {
      ModIs(p - v, p, 0, p - v);
    }
  }

  lemma EncodedSays(flag: int, h: nat)
    requires Flag(flag) && Len(h) < 16
    ensures var b := Encoded(flag, h);
      b[0] % 16 == |b| - 1 && (b[0] / 16 % 2 == 1 <==> flag == SIGN) && b[0] % 16 / 16 == 0 && Value(b[1..]) == h
  {
    hide Value, Big, Pow256, Len;
    assert Encoded(flag, h)[1..] == Big(h, Len(h));
    ValueOfBig(h, Len(h));
    ModIs(h, Pow256(Len(h)), 0, h);
    HeaderSays(flag, Len(h));
  }

  lemma HeaderSays(flag: int, n: int)
    requires Flag(flag) && 0 <= n < 16
    ensures var b := flag + n; b % 16 == n && (b / 16 % 2 == 1 <==> flag == SIGN) && b % 16 / 16 == 0
  {
  }

  /** Decoding an encoded signed integer gives it back, the least one included. */
  lemma SignedRoundTrip(x: int, w: nat)
    requires InSigned(x, w) && 0 < w < 16
    ensures Len(Abs(x)) <= w
    ensures var b := Encoded(if x < 0 then SIGN else 0, Abs(x)); Signed(b[0], b[1..], w) == x
  {
    hide Wrap, Value, Encoded, Pow256, Len;
    MagnitudeIs(x, w);
    LenAtMost(Abs(x), w);
    EncodedSays(if x < 0 then SIGN else 0, Abs(x));
    Negated(Abs(x), w);
  }

  lemma UnsignedRoundTrip(h: nat, w: nat)
    requires h < Pow256(w) && 0 < w < 16
    ensures Len(h) <= w && Value(Encoded(0, h)[1..]) == h
  {
    LenAtMost(h, w);
    EncodedSays(0, h);
  }

  /** The decoder clears the sign in the buffer: decoding again gives the same exactly for what is not
      negative and for the least integer. */
  lemma DecodedTwice(x: int, w: nat)
    requires InSigned(x, w) && 0 < w < 16
    ensures Len(Abs(x)) <= w
    ensures var b := Encoded(if x < 0 then SIGN else 0, Abs(x));
      Signed(b[0] % 16, b[1..], w) == x <==> x >= 0 || 2 * x + Pow256(w) == 0
  {
    hide Wrap, Value, Encoded, Pow256, Len;
    MagnitudeIs(x, w);
    LenAtMost(Abs(x), w);
    EncodedSays(if x < 0 then SIGN else 0, Abs(x));
    Negated(Abs(x), w);
  }
}

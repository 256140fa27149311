/** The COMPRESS and UNCOMPRESS macros of test2/IDL_hello_world.dsc.h, on a buffer that they change in
    place.  `ptr` is where `_buf_` points to, `off` is `_bufoffset_`. */
module DscMacros {
  import opened Division
  import opened DscBytes
  import opened DscCodec

  function Spliced(b: seq<Byte>, at: nat, s: seq<Byte>): seq<Byte>
    requires at + |s| <= |b|
  {
    b[..at] + s + b[at + |s|..]
  }

  method Memcpy(buf: array<Byte>, at: nat, src: seq<Byte>)
    requires at + |src| <= buf.Length
    modifies buf
    ensures buf[..] == Spliced(old(buf[..]), at, src)
  {
    forall i | 0 <= i < |src| {
      buf[at + i] := src[i];
    }
  }

  // ---------------------------------------------------------------- encoders

  /** `h & 0xFF << 8 * k`. */
  predicate HasByte(h: nat, k: nat) { h / Pow256(k) % 256 != 0 }

  lemma TopByte(h: nat, n: nat)
    requires n > 0
    ensures h < Pow256(n) && HasByte(h, n - 1) ==> Len(h) == n
    ensures h < Pow256(n) && !HasByte(h, n - 1) ==> h < Pow256(n - 1)
  {
    if h < Pow256(n) {
      var p := Pow256(n - 1);
      var q, r := h / p, h % p;
      assert h == q * p + r;
      Multiple(q - 255, p);
      assert (q - 255) * p == q * p - 255 * p;
      assert q < 256;
      if HasByte(h, n - 1) {
        Multiple(q, p);
        LenIs(h, n);
      }
    }
  }

  lemma LowBytes(h: nat, w: nat, n: nat)
    requires n <= w
    ensures Big(h, w)[w - n..] == Big(h, n)
  {
    if n > 0 {
      LowBytes(h / 256, w - 1, n - 1);
      assert Big(h, w)[w - n..] == Big(h / 256, w - 1)[w - n..] + [h % 256];
    } else {
      assert Big(h, w)[w..] == [];
    }
  }

  lemma SplicedTwice(b: seq<Byte>, at: nat, x: Byte, s: seq<Byte>)
    requires at + 1 + |s| <= |b|
    ensures Spliced(b[at := x], at + 1, s) == Spliced(b, at, [x] + s)
  {
  }

  lemma SplicedAt(b: seq<Byte>, at: nat, s: seq<Byte>, i: nat)
    requires at + |s| <= |b| && i < |b|
    ensures |Spliced(b, at, s)| == |b| && Spliced(b, at, s)[i] == if at <= i < at + |s| then s[i - at] else b[i]
  {
  }

  /** The bytes of a buffer into which a code has been written. */
  lemma Written(b: seq<Byte>, b': seq<Byte>, at: nat, negative: bool, h: nat)
    requires Len(h) < 16 && at + 1 + Len(h) <= |b| && b' == Spliced(b, at, Encoded(if negative then SIGN else 0, h))
    ensures |b'| == |b| && b'[at] == (if negative then 0x10 else 0) + Len(h)
    ensures var end := at + 1 + Len(h);
      && (forall i {:trigger b'[i]} :: at < i < end ==> b'[i] == h / Pow256(end - 1 - i) % 256)
      && (forall i {:trigger b'[i]} :: 0 <= i < at || end <= i < |b| ==> b'[i] == b[i])
  {
    hide Encoded, Len, Pow256, Spliced;
    var s, n := Encoded(if negative then SIGN else 0, h), Len(h);
    EncodedBytes(negative, h);
    SplicedAt(b, at, s, at);
    forall i | 0 <= i < |b| && i != at
      ensures b'[i] == if at < i <= at + n then h / Pow256(at + n - i) % 256 else b[i]
    {
      SplicedAt(b, at, s, i);
      if at < i <= at + n { assert s[i - at] == h / Pow256(n - (i - at)) % 256; }
    }
  }

  /** The chain of masks of the four-byte encoders finds how many bytes to write. */
  method Size4(h: nat) returns (size: nat)
    requires h < Pow256(4)
    ensures size == Len(h) <= 4
  {
    hide Pow256, Len, HasByte;
    TopByte(h, 4);
    TopByte(h, 3);
    TopByte(h, 2);
    LastByte(h);
    if HasByte(h, 3) {
      size := 4;
    } else if HasByte(h, 2) {
      size := 3;
    } else if HasByte(h, 1) {
      size := 2;
    } else {
      size := 1;
    }
  }

  lemma LastByte(h: nat)
    ensures h < Pow256(1) ==> Len(h) == 1
  {
  }

  /** The chain of masks of the eight-byte encoders. */
  method Size8(h: nat) returns (size: nat)
    requires h < Pow256(8)
    ensures size == Len(h) <= 8
  {
    hide Pow256, Len, HasByte;
    TopByte(h, 8);
    TopByte(h, 7);
    TopByte(h, 6);
    TopByte(h, 5);
    TopByte(h, 4);
    TopByte(h, 3);
    TopByte(h, 2);
    LastByte(h);
    if HasByte(h, 7) {
      size := 8;
    } else if HasByte(h, 6) {
      size := 7;
    } else if HasByte(h, 5) {
      size := 6;
    } else if HasByte(h, 4) {
      size := 5;
    } else if HasByte(h, 3) {
      size := 4;
    } else if HasByte(h, 2) {
      size := 3;
    } else if HasByte(h, 1) {
      size := 2;
    } else {
      size := 1;
    }
  }

  /** A header, and the last `size` bytes of the network-order number in the memory `n`. */
  method Emit(flag: int, n: seq<Byte>, size: nat, buf: array<Byte>, ptr: nat, off: nat) returns (ptr': nat, off': nat)
    requires Flag(flag) && 1 <= size <= |n| && size < 16 && ptr + 1 + size <= buf.Length
    modifies buf
    ensures buf[..] == Spliced(old(buf[..]), ptr, [flag + size] + n[|n| - size..])
    ensures ptr' == ptr + 1 + size && off' == off + 1 + size
  {
    SplicedTwice(buf[..], ptr, flag + size, n[|n| - size..]);
    buf[ptr] := flag + size;
    assert buf[..] == old(buf[..])[ptr := flag + size];
    Memcpy(buf, ptr + 1, n[|n| - size..]);
    ptr', off' := ptr + 1 + size, off + 1 + size;
  }

  /** The part that the four-byte encoders share. */
  method Compress4(flag: int, h: nat, buf: array<Byte>, ptr: nat, off: nat, host: Host) returns (ptr': nat, off': nat)
    requires Flag(flag) && h < Pow256(4) && Len(h) <= 4 && ptr + 1 + Len(h) <= buf.Length
    modifies buf
    ensures buf[..] == Spliced(old(buf[..]), ptr, Encoded(flag, h))
    ensures ptr' == ptr + 1 + Len(h) && off' == off + 1 + Len(h)
  {
    hide Pow256, Len, Big, Store, Htonl, Spliced;
    var n := Store(Htonl(h, host), 4, host);
    HtonlStored(h, host);
    var size := Size4(h);
    LowBytes(h, 4, size);
    ptr', off' := Emit(flag, n, size, buf, ptr, off);
  }

  /** The part that the eight-byte encoders share. */
  method Compress8(flag: int, h: nat, buf: array<Byte>, ptr: nat, off: nat, host: Host) returns (ptr': nat, off': nat)
    requires Flag(flag) && h < Pow256(8) && Len(h) <= 8 && ptr + 1 + Len(h) <= buf.Length
    modifies buf
    ensures buf[..] == Spliced(old(buf[..]), ptr, Encoded(flag, h))
    ensures ptr' == ptr + 1 + Len(h) && off' == off + 1 + Len(h)
  {
    hide Pow256, Len, Big, Store, Htonll, Spliced;
    var n := Store(Htonll(h, host), 8, host);
    HtonllStored(h, host);
    var size := Size8(h);
    LowBytes(h, 8, size);
    ptr', off' := Emit(flag, n, size, buf, ptr, off);
  }

  /** COMPRESS_INT4. */
  method CompressInt4(x: int, buf: array<Byte>, ptr: nat, off: nat, host: Host) returns (ptr': nat, off': nat)
    requires InSigned(x, 4) && Len(Abs(x)) <= 4 && ptr + 1 + Len(Abs(x)) <= buf.Length
    modifies buf
    ensures ptr' == ptr + 1 + Len(Abs(x)) && off' == off + 1 + Len(Abs(x))
    ensures buf[ptr] == (if x < 0 then 0x10 else 0) + Len(if x < 0 then -x else x)
    ensures forall i {:trigger buf[i]} :: ptr < i < ptr' ==>
      (buf[i] == (if x < 0 then -x else x) / Pow256(ptr' - 1 - i) % 256)
    ensures forall i {:trigger buf[i]} :: 0 <= i < ptr || ptr' <= i < buf.Length ==> buf[i] == old(buf[i])
    ensures buf[..] == Spliced(old(buf[..]), ptr, Encoded(if x < 0 then SIGN else 0, Abs(x)))
  {
    hide Encoded, Len, Wrap, Pow256, Spliced;
    ghost var b := buf[..];
    MagnitudeIs(x, 4);
    if x < 0 {
      ptr', off' := Compress4(SIGN, Wrap(-x, 4) % Pow256(4), buf, ptr, off, host);
    } else {
      ptr', off' := Compress4(0, x, buf, ptr, off, host);
    }
    Written(b, buf[..], ptr, x < 0, Abs(x));
  }

  /** COMPRESS_UINT4. */
  method CompressUint4(x: nat, buf: array<Byte>, ptr: nat, off: nat, host: Host) returns (ptr': nat, off': nat)
    requires x < Pow256(4) && Len(x) <= 4 && ptr + 1 + Len(x) <= buf.Length
    modifies buf
    ensures ptr' == ptr + 1 + Len(x) && off' == off + 1 + Len(x)
    ensures buf[ptr] == Len(x)
    ensures forall i {:trigger buf[i]} :: ptr < i < ptr' ==> buf[i] == x / Pow256(ptr' - 1 - i) % 256
    ensures forall i {:trigger buf[i]} :: 0 <= i < ptr || ptr' <= i < buf.Length ==> buf[i] == old(buf[i])
    ensures buf[..] == Spliced(old(buf[..]), ptr, Encoded(0, x))
  {
    hide Encoded, Len, Pow256, Spliced;
    ghost var b := buf[..];
    ptr', off' := Compress4(0, x, buf, ptr, off, host);
    Written(b, buf[..], ptr, false, x);
  }

  /** COMPRESS_INT8. */
  method CompressInt8(x: int, buf: array<Byte>, ptr: nat, off: nat, host: Host) returns (ptr': nat, off': nat)
    requires InSigned(x, 8) && Len(Abs(x)) <= 8 && ptr + 1 + Len(Abs(x)) <= buf.Length
    modifies buf
    ensures ptr' == ptr + 1 + Len(Abs(x)) && off' == off + 1 + Len(Abs(x))
    ensures buf[ptr] == (if x < 0 then 0x10 else 0) + Len(if x < 0 then -x else x)
    ensures forall i {:trigger buf[i]} :: ptr < i < ptr' ==>
      (buf[i] == (if x < 0 then -x else x) / Pow256(ptr' - 1 - i) % 256)
    ensures forall i {:trigger buf[i]} :: 0 <= i < ptr || ptr' <= i < buf.Length ==> buf[i] == old(buf[i])
    ensures buf[..] == Spliced(old(buf[..]), ptr, Encoded(if x < 0 then SIGN else 0, Abs(x)))
  {
    hide Encoded, Len, Wrap, Pow256, Spliced;
    ghost var b := buf[..];
    MagnitudeIs(x, 8);
    if x < 0 {
      ptr', off' := Compress8(SIGN, Wrap(-x, 8) % Pow256(8), buf, ptr, off, host);
    } else {
      ptr', off' := Compress8(0, x, buf, ptr, off, host);
    }
    Written(b, buf[..], ptr, x < 0, Abs(x));
  }

  /** COMPRESS_UINT8. */
  method CompressUint8(x: nat, buf: array<Byte>, ptr: nat, off: nat, host: Host) returns (ptr': nat, off': nat)
    requires x < Pow256(8) && Len(x) <= 8 && ptr + 1 + Len(x) <= buf.Length
    modifies buf
    ensures ptr' == ptr + 1 + Len(x) && off' == off + 1 + Len(x)
    ensures buf[ptr] == Len(x)
    ensures forall i {:trigger buf[i]} :: ptr < i < ptr' ==> buf[i] == x / Pow256(ptr' - 1 - i) % 256
    ensures forall i {:trigger buf[i]} :: 0 <= i < ptr || ptr' <= i < buf.Length ==> buf[i] == old(buf[i])
    ensures buf[..] == Spliced(old(buf[..]), ptr, Encoded(0, x))
  {
    hide Encoded, Len, Pow256, Spliced;
    ghost var b := buf[..];
    ptr', off' := Compress8(0, x, buf, ptr, off, host);
    Written(b, buf[..], ptr, false, x);
  }

  // ---------------------------------------------------------------- decoders

  function Zeros(n: nat): (b: seq<Byte>)
    ensures |b| == n
  {
    if n == 0 then [] else Zeros(n - 1) + [0]
  }

  lemma ValuePadded(n: nat, b: seq<Byte>)
    ensures Value(Zeros(n) + b) == Value(b)
  {
    ValueOfZeros(n);
    ValueSum(Zeros(n), b);
  }

  lemma {:induction false} ValueOfZeros(n: nat)
    ensures Value(Zeros(n)) == 0
  {
    if n > 0 {
      ValueOfZeros(n - 1);
      assert Zeros(n)[..n - 1] == Zeros(n - 1);
    }
  }

  /** Whether the header at `ptr` and its payload are in the buffer and fit `w` bytes. */
  predicate Readable(b: seq<Byte>, ptr: nat, w: nat) { ptr < |b| && b[ptr] % 16 <= w && ptr + 1 + b[ptr] % 16 <= |b| }

  function Payload(b: seq<Byte>, ptr: nat): seq<Byte>
    requires ptr < |b| && ptr + 1 + b[ptr] % 16 <= |b|
  {
    b[ptr + 1..ptr + 1 + b[ptr] % 16]
  }

  /** UNCOMPRESS_INT4: the header loses its sign in the buffer. */
  method UncompressInt4(buf: array<Byte>, ptr: nat, off: nat, host: Host) returns (x: int, ptr': nat, off': nat)
    requires Readable(buf[..], ptr, 4)
    modifies buf
    ensures ptr' == ptr + 1 + old(buf[ptr]) % 16 && off' == off + 1 + old(buf[ptr]) % 16
    ensures x == Signed(old(buf[ptr]), Payload(old(buf[..]), ptr), 4)
    ensures var v := Value(old(buf[..])[ptr + 1..ptr']);
      && (old(buf[ptr]) / 16 % 2 == 0 ==> x == if v < 0x8000_0000 then v else v - 0x1_0000_0000)
      && (old(buf[ptr]) / 16 % 2 == 1 ==> x == if v <= 0x8000_0000 then 0 - v else 0x1_0000_0000 - v)
    ensures buf[..] == old(buf[..])[ptr := old(buf[ptr]) % 16]
  {
    hide Wrap, Value, Fetch, Pow256, Ntohl;
    SignedSays(buf[ptr], Payload(buf[..], ptr), 4);
    assert Pow256(4) == 0x1_0000_0000 by { Powers(); }
    var flag := buf[ptr] / 16 * 16;
    buf[ptr] := buf[ptr] % 16;
    var size := buf[ptr];
    var memory := Zeros(4 - size) + buf[ptr + 1..ptr + 1 + size];
    NtohlFetched(memory, host);
    ValuePadded(4 - size, buf[ptr + 1..ptr + 1 + size]);
    x := Wrap(Ntohl(Fetch(memory, host), host), 4);
    if flag / 16 % 2 == 1 {
      x := Wrap(-x, 4);
    }
    ptr', off' := ptr + 1 + size, off + 1 + size;
  }

  /** UNCOMPRESS_UINT4. */
  method UncompressUint4(buf: array<Byte>, ptr: nat, off: nat, host: Host) returns (x: nat, ptr': nat, off': nat)
    requires Readable(buf[..], ptr, 4)
    modifies buf
    ensures ptr' == ptr + 1 + old(buf[ptr]) % 16 && off' == off + 1 + old(buf[ptr]) % 16
    ensures x == Value(old(buf[..])[ptr + 1..ptr'])
    ensures buf[..] == old(buf[..])[ptr := old(buf[ptr]) % 16]
  {
    hide Value, Fetch, Ntohl;
    buf[ptr] := buf[ptr] % 16;
    var size := buf[ptr];
    var memory := Zeros(4 - size) + buf[ptr + 1..ptr + 1 + size];
    NtohlFetched(memory, host);
    ValuePadded(4 - size, buf[ptr + 1..ptr + 1 + size]);
    x := Ntohl(Fetch(memory, host), host);
    ptr', off' := ptr + 1 + size, off + 1 + size;
  }

  /** UNCOMPRESS_INT8: the header loses its sign in the buffer. */
  method UncompressInt8(buf: array<Byte>, ptr: nat, off: nat, host: Host) returns (x: int, ptr': nat, off': nat)
    requires Readable(buf[..], ptr, 8)
    modifies buf
    ensures ptr' == ptr + 1 + old(buf[ptr]) % 16 && off' == off + 1 + old(buf[ptr]) % 16
    ensures x == Signed(old(buf[ptr]), Payload(old(buf[..]), ptr), 8)
    ensures var v := Value(old(buf[..])[ptr + 1..ptr']);
      && (old(buf[ptr]) / 16 % 2 == 0 ==> x == if v < 0x8000_0000_0000_0000 then v else v - 0x1_0000_0000_0000_0000)
      && (old(buf[ptr]) / 16 % 2 == 1 ==>
        (x == if v <= 0x8000_0000_0000_0000 then 0 - v else 0x1_0000_0000_0000_0000 - v))
    ensures buf[..] == old(buf[..])[ptr := old(buf[ptr]) % 16]
  {
    hide Wrap, Value, Fetch, Pow256, Ntohll;
    SignedSays(buf[ptr], Payload(buf[..], ptr), 8);
    assert Pow256(8) == 0x1_0000_0000_0000_0000 by { Powers(); }
    var flag := buf[ptr] / 16 * 16;
    buf[ptr] := buf[ptr] % 16;
    var size := buf[ptr];
    var memory := Zeros(8 - size) + buf[ptr + 1..ptr + 1 + size];
    NtohllFetched(memory, host);
    ValuePadded(8 - size, buf[ptr + 1..ptr + 1 + size]);
    x := Wrap(Ntohll(Fetch(memory, host), host), 8);
    if flag / 16 % 2 == 1 {
      x := Wrap(-x, 8);
    }
    ptr', off' := ptr + 1 + size, off + 1 + size;
  }

  /** UNCOMPRESS_UINT8. */
  method UncompressUint8(buf: array<Byte>, ptr: nat, off: nat, host: Host) returns (x: nat, ptr': nat, off': nat)
    requires Readable(buf[..], ptr, 8)
    modifies buf
    ensures ptr' == ptr + 1 + old(buf[ptr]) % 16 && off' == off + 1 + old(buf[ptr]) % 16
    ensures x == Value(old(buf[..])[ptr + 1..ptr'])
    ensures buf[..] == old(buf[..])[ptr := old(buf[ptr]) % 16]
  {
    hide Value, Fetch, Ntohll;
    buf[ptr] := buf[ptr] % 16;
    var size := buf[ptr];
    var memory := Zeros(8 - size) + buf[ptr + 1..ptr + 1 + size];
    NtohllFetched(memory, host);
    ValuePadded(8 - size, buf[ptr + 1..ptr + 1 + size]);
    x := Ntohll(Fetch(memory, host), host);
    ptr', off' := ptr + 1 + size, off + 1 + size;
  }
}

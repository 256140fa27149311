/** Sequences of encoded integers: what is written one after the other is read back, each with its type. */
module DscStream {
  import opened DscBytes
  import opened DscCodec
  import opened DscMacros

  datatype Kind = Int4 | Uint4 | Int8 | Uint8
  datatype Item = Item(kind: Kind, value: int)

  function Width(k: Kind): nat { if k == Int4 || k == Uint4 then 4 else 8 }

  predicate Fits(i: Item) {
    if i.kind == Int4 || i.kind == Int8 then InSigned(i.value, Width(i.kind)) else 0 <= i.value < Pow256(Width(i.kind))
  }

  lemma FitsLen(i: Item)
    requires Fits(i)
    ensures Len(Abs(i.value)) <= Width(i.kind)
  {
    if i.kind == Int4 || i.kind == Int8 { MagnitudeIs(i.value, Width(i.kind)); }
    LenAtMost(Abs(i.value), Width(i.kind));
  }

  function Code(i: Item): (b: seq<Byte>)
    requires Fits(i)
    ensures |b| == 1 + Len(Abs(i.value)) && b[0] % 16 == Len(Abs(i.value)) <= Width(i.kind)
  {
    FitsLen(i);
    EncodedSays(if i.value < 0 then SIGN else 0, Abs(i.value));
    Encoded(if i.value < 0 then SIGN else 0, Abs(i.value))
  }

  /** The magnitude is as short as it can be. */
  lemma MinimalLength(i: Item, b: seq<Byte>)
    requires Fits(i) && b != [] && Value(b) == Abs(i.value)
    ensures |Code(i)| <= 1 + |b| && Value(Code(i)[1..]) == Value(b)
  {
    BigOfValue(b);
    LenAtMost(Abs(i.value), |b|);
    FitsLen(i);
    EncodedSays(if i.value < 0 then SIGN else 0, Abs(i.value));
  }

  predicate AllFit(items: seq<Item>) { forall i :: 0 <= i < |items| ==> Fits(items[i]) }

  function Stream(items: seq<Item>): seq<Byte>
    requires AllFit(items)
  {
    if items == [] then [] else Stream(items[..|items| - 1]) + Code(items[|items| - 1])
  }

  /** A code whose header has lost its sign. */
  function MaskedCode(i: Item): (b: seq<Byte>)
    requires Fits(i)
    ensures |b| == |Code(i)|
  {
    Code(i)[0 := Code(i)[0] % 16]
  }

  /** A code, byte by byte, and what masking does to it. */
  lemma CodeBytes(i: Item)
    requires Fits(i)
    ensures var b, h, n := Code(i), (if i.value < 0 then -i.value else i.value), |Code(i)| - 1;
      && n == Len(h) && b[0] == (if i.value < 0 then 0x10 else 0) + n
      && (forall j {:trigger b[j]} :: 1 <= j <= n ==> b[j] == h / Pow256(n - j) % 256)
      && MaskedCode(i) == [n] + b[1..]
  {
    hide Encoded, Len, Pow256;
    FitsLen(i);
    EncodedBytes(i.value < 0, Abs(i.value));
  }

  /** The stream as the decoders leave it. */
  function MaskedStream(items: seq<Item>): (b: seq<Byte>)
    requires AllFit(items)
    ensures |b| == |Stream(items)|
  {
    if items == [] then [] else MaskedStream(items[..|items| - 1]) + MaskedCode(items[|items| - 1])
  }

  lemma {:induction false} StreamSplit(items: seq<Item>, k: nat)
    requires AllFit(items) && k <= |items|
    ensures Stream(items) == Stream(items[..k]) + Stream(items[k..])
    decreases |items|
  {
    hide Code, Fits, Stream;
    if k == |items| {
      assert items[..k] == items && items[k..] == items[..0];
      EmptyStream(items);
    } else {
      var n := |items| - 1;
      StreamSplit(items[..n], k);
      StreamLast(items);
      StreamLast(items[k..]);
      assert items[..n][..k] == items[..k] && items[..n][k..] == items[k..][..n - k] && items[k..][n - k] == items[n];
    }
  }

  lemma StreamLast(items: seq<Item>)
    requires AllFit(items) && items != []
    ensures var n := |items| - 1;
      AllFit(items[..n]) && Fits(items[n]) && Stream(items) == Stream(items[..n]) + Code(items[n])
  {
  }

  lemma StreamOne(i: Item)
    requires Fits(i)
    ensures Stream([i]) == Code(i)
  {
    assert Stream([i][..0]) == [];
  }

  /** The `k`-th code stands behind the codes before it. */
  lemma StreamStep(items: seq<Item>, k: nat)
    requires AllFit(items) && k < |items|
    ensures Fits(items[k]) && Stream(items[..k + 1]) == Stream(items[..k]) + Code(items[k])
    ensures MaskedStream(items[..k + 1]) == MaskedStream(items[..k]) + MaskedCode(items[k])
    ensures Stream(items[k..]) == Code(items[k]) + Stream(items[k + 1..])
    ensures |Stream(items[..k + 1])| <= |Stream(items)|
  {
    assert items[..k + 1][..k] == items[..k] && items[..k + 1][k] == items[k];
    StreamSplit(items[k..], 1);
    assert items[k..][..1] == [items[k]] && items[k..][1..] == items[k + 1..];
    StreamOne(items[k]);
    StreamSplit(items, k + 1);
  }

  method CompressItem(i: Item, buf: array<Byte>, ptr: nat, off: nat, host: Host) returns (ptr': nat, off': nat)
    requires Fits(i) && ptr + |Code(i)| <= buf.Length
    modifies buf
    ensures buf[..] == Spliced(old(buf[..]), ptr, Code(i)) && ptr' == ptr + |Code(i)| && off' == off + |Code(i)|
  {
    hide Len, Encoded, Pow256, Spliced;
    FitsLen(i);
    match i.kind {
      case Int4 => ptr', off' := CompressInt4(i.value, buf, ptr, off, host);
      case Uint4 => ptr', off' := CompressUint4(i.value, buf, ptr, off, host);
      case Int8 => ptr', off' := CompressInt8(i.value, buf, ptr, off, host);
      case Uint8 => ptr', off' := CompressUint8(i.value, buf, ptr, off, host);
    }
  }

  lemma EmptyStream(items: seq<Item>)
    ensures Stream(items[..0]) == [] && MaskedStream(items[..0]) == []
  {
  }

  lemma SplicedBehind(p: seq<Byte>, c: seq<Byte>, b: seq<Byte>)
    requires |p| + |c| <= |b|
    ensures Spliced(p + b[|p|..], |p|, c) == (p + c) + b[|p| + |c|..]
  {
  }

  /** CompressItem behind the bytes `p` that have replaced the front of `b`. */
  method CompressBehind(i: Item, buf: array<Byte>, ptr: nat, off: nat, host: Host, ghost p: seq<Byte>,
      ghost b: seq<Byte>)
    returns (ptr': nat, off': nat)
    requires Fits(i) && ptr + |Code(i)| <= buf.Length && |p| == ptr && |b| == buf.Length && buf[..] == p + b[ptr..]
    modifies buf
    ensures ptr' == ptr + |Code(i)| && off' == off + |Code(i)| && buf[..] == (p + Code(i)) + b[ptr'..]
  {
    hide Code, Fits, Spliced;
    SplicedBehind(p, Code(i), b);
    ptr', off' := CompressItem(i, buf, ptr, off, host);
  }

  /** Encodes one integer behind the other. */
  method CompressAll(items: seq<Item>, buf: array<Byte>, host: Host) returns (len: nat)
    requires AllFit(items) && |Stream(items)| <= buf.Length
    modifies buf
    ensures len == |Stream(items)| && buf[..] == Stream(items) + old(buf[..])[len..]
  {
    hide Stream, MaskedStream, Code, Fits, Spliced;
    ghost var b := buf[..];
    var ptr, off, k := 0, 0, 0;
    EmptyStream(items);
    while k < |items|
      invariant 0 <= k <= |items| && ptr == off == |Stream(items[..k])| <= buf.Length
      invariant buf[..] == Stream(items[..k]) + b[ptr..]
    {
      StreamStep(items, k);
      ptr, off := CompressBehind(items[k], buf, ptr, off, host, Stream(items[..k]), b);
      k := k + 1;
    }
    assert items[..k] == items;
    len := off;
  }

  /** What the decoders find in a code. */
  lemma CodeSays(i: Item)
    requires Fits(i)
    ensures i.kind == Int4 || i.kind == Int8 ==> Signed(Code(i)[0], Code(i)[1..], Width(i.kind)) == i.value
    ensures i.kind == Uint4 || i.kind == Uint8 ==> Value(Code(i)[1..]) == i.value
  {
    hide Signed, Value, Encoded, Len;
    if i.kind == Int4 || i.kind == Int8 {
      SignedRoundTrip(i.value, Width(i.kind));
    } else {
      UnsignedRoundTrip(i.value, Width(i.kind));
    }
  }

  lemma InContext(pre: seq<Byte>, i: Item, post: seq<Byte>)
    requires Fits(i)
    ensures var b := pre + Code(i) + post;
      && Readable(b, |pre|, Width(i.kind)) && b[|pre|] == Code(i)[0] && Payload(b, |pre|) == Code(i)[1..]
      && b[|pre| := b[|pre|] % 16] == pre + MaskedCode(i) + post
  {
  }

  method UncompressItem(kind: Kind, buf: array<Byte>, ptr: nat, off: nat, host: Host, ghost i: Item,
      ghost pre: seq<Byte>, ghost post: seq<Byte>)
    returns (x: int, ptr': nat, off': nat)
    requires Fits(i) && i.kind == kind && |pre| == ptr && buf[..] == pre + Code(i) + post
    modifies buf
    ensures x == i.value && buf[..] == pre + MaskedCode(i) + post && ptr' == ptr + |Code(i)| && off' == off + |Code(i)|
  {
    hide Signed, Value, Code, MaskedCode, Fits;
    InContext(pre, i, post);
    CodeSays(i);
    match kind {
      case Int4 => x, ptr', off' := UncompressInt4(buf, ptr, off, host);
      case Uint4 => x, ptr', off' := UncompressUint4(buf, ptr, off, host);
      case Int8 => x, ptr', off' := UncompressInt8(buf, ptr, off, host);
      case Uint8 => x, ptr', off' := UncompressUint8(buf, ptr, off, host);
    }
  }

  /** Decodes once, integer by integer with its type, what CompressAll has written, possibly on another host:
      the same integers, and exactly the bytes written are consumed. */
  method UncompressAll(kinds: seq<Kind>, buf: array<Byte>, host: Host, ghost items: seq<Item>)
    returns (out: seq<Item>, len: nat)
    requires AllFit(items) && |kinds| == |items| && forall i :: 0 <= i < |items| ==> kinds[i] == items[i].kind
    requires |Stream(items)| <= buf.Length && buf[..|Stream(items)|] == Stream(items)
    modifies buf
    ensures out == items && len == |Stream(items)|
    ensures buf[..] == MaskedStream(items) + old(buf[..])[len..]
  {
    hide Stream, MaskedStream, Code, MaskedCode, Fits;
    ghost var rest := buf[|Stream(items)|..];
    var ptr, off, k := 0, 0, 0;
    out := [];
    EmptyStream(items);
    assert items[0..] == items;
    assert buf[..] == MaskedStream(items[..0]) + (Stream(items) + rest);
    while k < |kinds|
      invariant 0 <= k <= |items| && ptr == off == |MaskedStream(items[..k])| && out == items[..k]
      invariant buf[..] == MaskedStream(items[..k]) + (Stream(items[k..]) + rest)
    {
      StreamStep(items, k);
      ghost var pre, post := MaskedStream(items[..k]), Stream(items[k + 1..]) + rest;
      Regrouped(pre, Code(items[k]), Stream(items[k + 1..]), rest);
      var x;
      x, ptr, off := UncompressItem(kinds[k], buf, ptr, off, host, items[k], pre, post);
      out := out + [Item(kinds[k], x)];
      k := k + 1;
    }
    assert items[..k] == items && items[k..] == items[|items|..];
    NoneLeft(items);
    assert MaskedStream(items) + ([] + rest) == MaskedStream(items) + rest;
    len := off;
  }

  lemma Regrouped(p: seq<Byte>, c: seq<Byte>, s: seq<Byte>, r: seq<Byte>)
    ensures p + ((c + s) + r) == p + c + (s + r)
  {
  }

  lemma NoneLeft(items: seq<Item>)
    ensures Stream(items[|items|..]) == []
  {
  }
}

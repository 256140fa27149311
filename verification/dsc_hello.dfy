/** The length-prefixed message of test2/IDL_hello_world.dsc.c. */
module DscHello {
  import opened DscBytes
  import opened DscCodec
  import opened DscMacros

  const MESSAGE_SIZE: nat := 256 + 1
  const BUFSIZE: nat := 257

  class HelloWorld {
    const message: array<Byte>

    constructor ()
      ensures fresh(message) && message.Length == MESSAGE_SIZE
    {
      message := new Byte[MESSAGE_SIZE];
    }
  }

  /** strlen. */
  function StrLen(s: seq<Byte>): (n: nat)
    requires 0 in s
    ensures n < |s| && s[n] == 0 && forall j :: 0 <= j < n ==> s[j] != 0
  {
    if s[0] == 0 then 0 else 1 + StrLen(s[1..])
  }

  lemma StrLenIs(s: seq<Byte>, n: nat)
    requires n < |s| && s[n] == 0 && forall j :: 0 <= j < n ==> s[j] != 0
    ensures StrLen(s) == n
  {
  }

  /** The text in a message. */
  function Text(s: seq<Byte>): seq<Byte>
    requires 0 in s
  {
    s[..StrLen(s)]
  }

  function Packed(text: seq<Byte>): seq<Byte>
    requires Len(|text|) <= 4
  {
    Encoded(0, |text|) + text
  }

  lemma TextLength(n: nat)
    requires n < MESSAGE_SIZE
    ensures n < Pow256(4) && Len(n) == if n <= 255 then 1 else 2
  {
    assert Pow256(1) == 256 && Pow256(2) == 65536 && Pow256(3) == 16777216;
    LenIs(n, if n <= 255 then 1 else 2);
  }

  /** The buffer size that the header announces is enough for all texts but the longest. */
  lemma BufferSize(text: seq<Byte>)
    requires |text| < MESSAGE_SIZE
    ensures Len(|text|) <= 4 && (|Packed(text)| <= BUFSIZE <==> |text| < MESSAGE_SIZE - 1)
  {
    TextLength(|text|);
  }

  /** What a packed text is, byte by byte: no sign, the length in one byte or two, the text. */
  lemma PackedBytes(text: seq<Byte>)
    requires |text| < MESSAGE_SIZE
    ensures Len(|text|) <= 4 && Packed(text) == (if |text| <= 255 then [1, |text|] else [2, 1, 0]) + text
  {
    LengthBytes(|text|);
  }

  lemma LengthBytes(n: nat)
    requires n < MESSAGE_SIZE
    ensures Len(n) <= 4 && Encoded(0, n) == if n <= 255 then [1, n] else [2, 1, 0]
  {
    hide Encoded, Len, Pow256;
    TextLength(n);
    EncodedBytes(false, n);
    Powers();
    var b := Encoded(0, n);
    assert b[1] == n / Pow256(Len(n) - 1) % 256;
    if n > 255 { assert b[2] == n / Pow256(0) % 256; }
  }

  /** DSCINIT_hello_world. */
  method Init(pst: HelloWorld)
    requires pst.message.Length == MESSAGE_SIZE
    modifies pst.message
    ensures pst.message[..] == Zeros(MESSAGE_SIZE)
  {
    forall i | 0 <= i < MESSAGE_SIZE {
      pst.message[i] := 0;
    }
    forall i | 0 <= i < MESSAGE_SIZE ensures pst.message[i] == Zeros(MESSAGE_SIZE)[i] {
      ZerosAt(MESSAGE_SIZE, i);
    }
  }

  lemma {:induction false} ZerosAt(n: nat, i: nat)
    requires i < n
    ensures Zeros(n)[i] == 0
  {
    if i < n - 1 { ZerosAt(n - 1, i); }
  }

  /** DSCSERIALIZE_COMPRESS_hello_world. */
  method Serialize(pst: HelloWorld, buf: array<Byte>, host: Host) returns (len: nat)
    requires pst.message.Length == MESSAGE_SIZE && buf != pst.message && 0 in pst.message[..]
    requires Len(StrLen(pst.message[..])) <= 4 && |Packed(Text(pst.message[..]))| <= buf.Length
    modifies buf
    ensures len == |Packed(Text(pst.message[..]))| && buf[..] == Packed(Text(pst.message[..])) + old(buf[..])[len..]
    ensures var n := StrLen(pst.message[..]);
      && len == (if n <= 255 then 2 + n else 3 + n) <= buf.Length
      && buf[..] == (if n <= 255 then [1, n] else [2, 1, 0]) + pst.message[..n] + old(buf[..])[len..]
  {
    hide Encoded, Len, StrLen;
    PackedBytes(Text(pst.message[..]));
    var text := Text(pst.message[..]);
    var size := |text|;
    TextLength(size);
    ghost var b := buf[..];
    var ptr, off := CompressUint4(size, buf, 0, 0, host);
    assert buf[..] == Encoded(0, size) + b[ptr..];
    Memcpy(buf, ptr, pst.message[..size]);
    len := off + size;
  }

  /** DSCDESERIALIZE_COMPRESS_hello_world. */
  method Deserialize(buf: array<Byte>, pst: HelloWorld, host: Host) returns (len: nat)
    requires buf != pst.message && Readable(buf[..], 0, 4)
    requires Value(Payload(buf[..], 0)) <= pst.message.Length
    requires 1 + buf[0] % 16 + Value(Payload(buf[..], 0)) <= buf.Length
    modifies buf, pst.message
    ensures len == 1 + old(buf[0]) % 16 + Value(Payload(old(buf[..]), 0))
    ensures pst.message[..] == Spliced(old(pst.message[..]), 0, old(buf[..])[1 + old(buf[0]) % 16..len])
    ensures buf[..] == old(buf[..])[0 := old(buf[0]) % 16]
  {
    hide Value;
    var size, ptr, off := UncompressUint4(buf, 0, 0, host);
    Memcpy(pst.message, 0, buf[ptr..ptr + size]);
    len := off + size;
  }

  lemma PackedSays(text: seq<Byte>, rest: seq<Byte>)
    requires |text| < MESSAGE_SIZE && Len(|text|) <= 4
    ensures var b := Packed(text) + rest;
      && Readable(b, 0, 4) && b[0] % 16 == Len(|text|) && Value(Payload(b, 0)) == |text|
      && b[1 + b[0] % 16..|Packed(text)|] == text
  {
    hide Value, Len, Pow256;
    TextLength(|text|);
    UnsignedRoundTrip(|text|, 4);
    EncodedSays(0, |text|);
    assert Payload(Packed(text) + rest, 0) == Encoded(0, |text|)[1..];
  }

  lemma TextRestored(text: seq<Byte>)
    requires |text| < MESSAGE_SIZE && forall j :: 0 <= j < |text| ==> text[j] != 0
    ensures var s := text + Zeros(MESSAGE_SIZE - |text|); 0 in s && Text(s) == text
  {
    var s := text + Zeros(MESSAGE_SIZE - |text|);
    ZerosAt(MESSAGE_SIZE - |text|, 0);
    assert s[|text|] == 0;
    StrLenIs(s, |text|);
  }

  /** A message that is serialized, and deserialized into an initialised struct, possibly on another
      host, is restored; all bytes written are consumed. */
  method RoundTrip(pst: HelloWorld, other: HelloWorld, buf: array<Byte>, here: Host, there: Host)
    returns (written: nat, consumed: nat)
    requires pst.message.Length == MESSAGE_SIZE == other.message.Length && 0 in pst.message[..]
    requires buf != pst.message && buf != other.message && pst.message != other.message
    requires Len(StrLen(pst.message[..])) <= 4 && |Packed(Text(pst.message[..]))| <= buf.Length
    modifies buf, other.message
    ensures 0 in other.message[..] && Text(other.message[..]) == Text(pst.message[..])
    ensures var n := StrLen(pst.message[..]); other.message[..n] == pst.message[..n] && other.message[n] == 0
    ensures written == consumed == |Packed(Text(pst.message[..]))|
  {
    hide Len, Value, StrLen, Zeros, Spliced, Pow256;
    ghost var text := Text(pst.message[..]);
    TextLength(|text|);
    Init(other);
    written := Serialize(pst, buf, here);
    PackedSays(text, buf[written..]);
    assert buf[..] == Packed(text) + buf[written..];
    consumed := Deserialize(buf, other, there);
    SplicedZeros(text);
    TextRestored(text);
  }

  lemma ZerosCut(n: nat, k: nat)
    requires k <= n
    ensures Zeros(n)[k..] == Zeros(n - k)
  {
    hide Zeros;
    forall i | 0 <= i < n - k ensures Zeros(n)[k..][i] == Zeros(n - k)[i] {
      ZerosAt(n, k + i);
      ZerosAt(n - k, i);
    }
  }

  lemma SplicedZeros(t: seq<Byte>)
    requires |t| < MESSAGE_SIZE
    ensures Spliced(Zeros(MESSAGE_SIZE), 0, t) == t + Zeros(MESSAGE_SIZE - |t|)
  {
    hide Zeros;
    ZerosCut(MESSAGE_SIZE, |t|);
    assert [] + t == t;
  }
}

/** `arrayBufferToBase64` of commands.js: the template workbook's bytes are
    turned into a "binary string" (one UTF-16 code unit per byte) in chunks
    of 0x8000 bytes, and that string is handed to `btoa`, the standard
    Base64 encoding of section 4 of RFC 4648. */
module Base64 {
  import opened Text

  type Byte = x: int | 0 <= x < 256

  /** The chunk size the loop walks the buffer with. */
  const Chunk: nat := 0x8000

  function Min(a: int, b: int): int { if a <= b then a else b }

  /** `String.fromCharCode` over a run of bytes: one character per byte, whose
      code is the byte. */
  function Latin1(bytes: seq<Byte>): (s: string)
    ensures |s| == |bytes|
    ensures forall k :: 0 <= k < |bytes| ==> s[k] as int == bytes[k]
  {
    if bytes == [] then [] else [bytes[0] as char] + Latin1(bytes[1..])
  }

  lemma {:induction false} Latin1Append(a: seq<Byte>, b: seq<Byte>)
    ensures Latin1(a + b) == Latin1(a) + Latin1(b)
  {
    var l, r := Latin1(a + b), Latin1(a) + Latin1(b);
    assert |l| == |r|;
    forall k | 0 <= k < |l| ensures l[k] == r[k] {
      if k < |a| {
        assert (a + b)[k] == a[k];
      } else {
        assert (a + b)[k] == b[k - |a|];
      }
    }
  }

  lemma Latin1Window(bytes: seq<Byte>, i: nat, end: nat)
    requires i <= end <= |bytes|
    ensures Latin1(bytes[..i]) + Latin1(bytes[i..end]) == Latin1(bytes[..end])
  {
    Latin1Append(bytes[..i], bytes[i..end]);
    assert bytes[..i] + bytes[i..end] == bytes[..end];
  }

  // ---------- The Base64 alphabet (RFC 4648, section 4, Table 1) ----------

  /** The character that encodes a 6-bit group. */
  function Sextet(v: nat): (c: char)
    requires v < 64
    ensures c != '='
  {
    if v < 26 then ('A' as int + v) as char
    else if v < 52 then ('a' as int + (v - 26)) as char
    else if v < 62 then ('0' as int + (v - 52)) as char
    else if v == 62 then '+'
    else '/'
  }

  /** The 6-bit group a character encodes; None for a character outside the
      alphabet, the pad character '=' included. */
  function SextetValue(c: char): (r: Option<nat>)
    ensures r.Some? ==> r.value < 64
    ensures c == '=' ==> r.None?
  {
    if 'A' <= c <= 'Z' then Some(c as int - 'A' as int)
    else if 'a' <= c <= 'z' then Some(c as int - 'a' as int + 26)
    else if '0' <= c <= '9' then Some(c as int - '0' as int + 52)
    else if c == '+' then Some(62)
    else if c == '/' then Some(63)
    else None
  }

  /** The alphabet is a bijection between 0..63 and its 64 characters. */
  lemma SextetRoundTrip(v: nat)
    requires v < 64
    ensures SextetValue(Sextet(v)) == Some(v)
  {
  }

  // ---------- Encoding ----------

  /** Three bytes, 24 bits, become four characters. */
  function EncodeTriple(b0: Byte, b1: Byte, b2: Byte): string
  {
    [Sextet(b0 / 4), Sextet((b0 % 4) * 16 + b1 / 16), Sextet((b1 % 16) * 4 + b2 / 64), Sextet(b2 % 64)]
  }

  /** `btoa` on a byte string: whole 3-byte groups become 4 characters; a
      final group of one or two bytes is zero-padded to 6-bit boundaries and
      completed with "==" or "=". */
  function Encode(bytes: seq<Byte>): (s: string)
    ensures |s| == 4 * ((|bytes| + 2) / 3)
    ensures forall k :: 0 <= k < |s| && s[k] == '=' ==> k >= |s| - 2
  {
    if |bytes| == 0 then []
    else if |bytes| == 1 then
      [Sextet(bytes[0] / 4), Sextet((bytes[0] % 4) * 16), '=', '=']
    else if |bytes| == 2 then
      [Sextet(bytes[0] / 4), Sextet((bytes[0] % 4) * 16 + bytes[1] / 16), Sextet((bytes[1] % 16) * 4), '=']
    else
      EncodeTriple(bytes[0], bytes[1], bytes[2]) + Encode(bytes[3..])
  }

  // ---------- Decoding (the inverse the encoding is checked against) ----------

  /** Bytes of one unpadded group of four characters. */
  function DecodeQuad(c0: char, c1: char, c2: char, c3: char): Option<seq<Byte>>
  {
    var v0, v1, v2, v3 := SextetValue(c0), SextetValue(c1), SextetValue(c2), SextetValue(c3);
    if v0.None? || v1.None? || v2.None? || v3.None? then None
    else Some([v0.value * 4 + v1.value / 16, (v1.value % 16) * 16 + v2.value / 4, (v2.value % 4) * 64 + v3.value])
  }

  /** Bytes of a final group that ends in "==" (one byte) or "=" (two bytes). */
  function DecodePadded(c0: char, c1: char, c2: char): Option<seq<Byte>>
  {
    var v0, v1, v2 := SextetValue(c0), SextetValue(c1), SextetValue(c2);
    if v0.None? || v1.None? then None
    else if c2 == '=' then Some([v0.value * 4 + v1.value / 16])
    else if v2.None? then None
    else Some([v0.value * 4 + v1.value / 16, (v1.value % 16) * 16 + v2.value / 4])
  }

  function Decode(s: string): (r: Option<seq<Byte>>)
  {
    if |s| == 0 then Some([])
    else if |s| < 4 then None
    else if |s| == 4 && s[3] == '=' then DecodePadded(s[0], s[1], s[2])
    else
      match (DecodeQuad(s[0], s[1], s[2], s[3]), Decode(s[4..]))
      case (Some(group), Some(rest)) => Some(group + rest)
      case _ => None
  }

  lemma TripleRoundTrip(b0: Byte, b1: Byte, b2: Byte)
    ensures (b0 / 4) * 4 + ((b0 % 4) * 16 + b1 / 16) / 16 == b0
    ensures (((b0 % 4) * 16 + b1 / 16) % 16) * 16 + ((b1 % 16) * 4 + b2 / 64) / 4 == b1
    ensures (((b1 % 16) * 4 + b2 / 64) % 4) * 64 + b2 % 64 == b2
  {
    assert ((b0 % 4) * 16 + b1 / 16) / 16 == b0 % 4;
    assert ((b0 % 4) * 16 + b1 / 16) % 16 == b1 / 16;
    assert ((b1 % 16) * 4 + b2 / 64) / 4 == b1 % 16;
    assert ((b1 % 16) * 4 + b2 / 64) % 4 == b2 / 64;
  }

  lemma DecodeOne(b0: Byte)
    ensures Decode(Encode([b0])) == Some([b0])
  {
    var c0, c1 := b0 / 4, (b0 % 4) * 16;
    assert Encode([b0]) == [Sextet(c0), Sextet(c1), '=', '='];
    SextetRoundTrip(c0);
    SextetRoundTrip(c1);
    assert c1 / 16 == b0 % 4;
    assert DecodePadded(Sextet(c0), Sextet(c1), '=') == Some([b0]);
  }

  lemma DecodeTwo(b0: Byte, b1: Byte)
    ensures Decode(Encode([b0, b1])) == Some([b0, b1])
  {
    var c0, c1, c2 := b0 / 4, (b0 % 4) * 16 + b1 / 16, (b1 % 16) * 4;
    assert Encode([b0, b1]) == [Sextet(c0), Sextet(c1), Sextet(c2), '='];
    SextetRoundTrip(c0);
    SextetRoundTrip(c1);
    SextetRoundTrip(c2);
    TripleRoundTrip(b0, b1, 0);
    assert DecodePadded(Sextet(c0), Sextet(c1), Sextet(c2)) == Some([b0, b1]);
  }

  lemma DecodeTripleGroup(b0: Byte, b1: Byte, b2: Byte)
    ensures var s := EncodeTriple(b0, b1, b2);
      DecodeQuad(s[0], s[1], s[2], s[3]) == Some([b0, b1, b2])
  {
    var c0, c1, c2, c3 := b0 / 4, (b0 % 4) * 16 + b1 / 16, (b1 % 16) * 4 + b2 / 64, b2 % 64;
    SextetRoundTrip(c0);
    SextetRoundTrip(c1);
    SextetRoundTrip(c2);
    SextetRoundTrip(c3);
    TripleRoundTrip(b0, b1, b2);
  }

  /** Decoding what `btoa` produced gives back the bytes: Base64 loses nothing. */
  lemma {:induction false} DecodeEncode(bytes: seq<Byte>)
    ensures Decode(Encode(bytes)) == Some(bytes)
    decreases |bytes|
  {
    if |bytes| == 0 {
    } else if |bytes| == 1 {
      DecodeOne(bytes[0]);
      assert bytes == [bytes[0]];
    } else if |bytes| == 2 {
      DecodeTwo(bytes[0], bytes[1]);
      assert bytes == [bytes[0], bytes[1]];
    } else {
      DecodeEncode(bytes[3..]);
      DecodeEncodeStep(bytes);
    }
  }

  lemma DecodeEncodeStep(bytes: seq<Byte>)
    requires |bytes| >= 3
    requires Decode(Encode(bytes[3..])) == Some(bytes[3..])
    ensures Decode(Encode(bytes)) == Some(bytes)
  {
    var group := EncodeTriple(bytes[0], bytes[1], bytes[2]);
    var s := Encode(bytes);
    assert s == group + Encode(bytes[3..]);
    assert s[4..] == Encode(bytes[3..]);
    assert s[3] == group[3];
    DecodeTripleGroup(bytes[0], bytes[1], bytes[2]);
    DecodeGroupThenRest(s, [bytes[0], bytes[1], bytes[2]], bytes[3..]);
    assert Decode(s) == Some([bytes[0], bytes[1], bytes[2]] + bytes[3..]);
    SplitHead(bytes);
  }

  lemma SplitHead(bytes: seq<Byte>)
    requires |bytes| >= 3
    ensures [bytes[0], bytes[1], bytes[2]] + bytes[3..] == bytes
  {
  }

  lemma DecodeGroupThenRest(s: string, group: seq<Byte>, rest: seq<Byte>)
    requires |s| >= 4 && s[3] != '='
    requires DecodeQuad(s[0], s[1], s[2], s[3]) == Some(group)
    requires Decode(s[4..]) == Some(rest)
    ensures Decode(s) == Some(group + rest)
  {
  }

  /** `btoa` on a string: it throws (None here) when a character does not fit
      in one byte, and otherwise encodes the character codes. */
  function Btoa(binary: string): (r: Option<string>)
    ensures r.Some? <==> forall k :: 0 <= k < |binary| ==> binary[k] as int < 256
  {
    if forall k :: 0 <= k < |binary| ==> binary[k] as int < 256 then
      Some(Encode(seq(|binary|, k requires 0 <= k < |binary| => binary[k] as int as Byte)))
    else None
  }

  lemma BtoaOfLatin1(bytes: seq<Byte>)
    ensures Btoa(Latin1(bytes)) == Some(Encode(bytes))
  {
    var binary := Latin1(bytes);
    assert seq(|binary|, k requires 0 <= k < |binary| => binary[k] as int as Byte) == bytes;
  }

  /** `spans` are the windows `[start, end)` of a walk over the first `upto`
      bytes in steps of 0x8000: the first starts at 0, each begins where the
      previous one ended, every window but the last holds exactly 0x8000
      bytes, none is empty, and the last ends at `upto`. */
  ghost predicate Windows(spans: seq<(nat, nat)>, upto: nat)
  {
    && (|spans| == 0 <==> upto == 0)
    && (|spans| > 0 ==> spans[0].0 == 0 && spans[|spans| - 1].1 == upto)
    && (forall k :: 0 <= k < |spans| ==> spans[k].0 < spans[k].1 <= spans[k].0 + Chunk)
    && (forall k :: 0 <= k < |spans| - 1 ==> spans[k].1 == spans[k + 1].0 == spans[k].0 + Chunk)
  }

  lemma WindowsExtend(spans: seq<(nat, nat)>, i: nat, end: nat)
    requires Windows(spans, i)
    requires |spans| > 0 ==> spans[|spans| - 1].0 + Chunk == i
    requires i < end <= i + Chunk
    ensures Windows(spans + [(i, end)], end)
  {
    var t := spans + [(i, end)];
    forall k | 0 <= k < |t|
      ensures t[k].0 < t[k].1 <= t[k].0 + Chunk
    {
      if k < |spans| { assert t[k] == spans[k]; }
    }
    forall k | 0 <= k < |t| - 1
      ensures t[k].1 == t[k + 1].0 == t[k].0 + Chunk
    {
      assert t[k] == spans[k];
      if k < |spans| - 1 { assert t[k + 1] == spans[k + 1]; }
    }
  }

  /** arrayBufferToBase64: the loop appends `String.fromCharCode` of each
      window `[i, min(i + 0x8000, n))`, recorded in the ghost `spans`. The
      windows cover every byte exactly once and in order, so `btoa` never
      throws and the result is the Base64 encoding of the bytes. */
  method ArrayBufferToBase64(bytes: seq<Byte>) returns (b64: string, ghost spans: seq<(nat, nat)>)
    ensures b64 == Encode(bytes)
    ensures Windows(spans, |bytes|)
  {
    var binary := "";
    var i := 0;
    spans := [];
    while i < |bytes|
      invariant 0 <= i
      invariant binary == Latin1(bytes[..Min(i, |bytes|)])
      invariant Windows(spans, Min(i, |bytes|))
      invariant |spans| == 0 <==> i == 0
      invariant |spans| > 0 ==> spans[|spans| - 1].0 + Chunk == i
    {
      var end := Min(i + Chunk, |bytes|);
      Latin1Window(bytes, i, end);
      WindowsExtend(spans, i, end);
      binary := binary + Latin1(bytes[i..end]);
      spans := spans + [(i, end)];
      i := i + Chunk;
    }
    assert bytes[..|bytes|] == bytes;
    BtoaOfLatin1(bytes);
    var encoded := Btoa(binary);
    b64 := encoded.value;
  }
}

/** The "URL and Filename safe" base64 encoding of section 5 of RFC 4648, as
    Python's `base64.urlsafe_b64encode` produces it, the same encoding with its
    `=` padding removed (what `secrets.token_urlsafe` returns and what the PKCE
    challenge is built from), and a decoder for the unpadded form. */
module Base64Url {
  import opened Wrappers
  import Text

  newtype byte = x: int | 0 <= x < 256

  /** The characters of the base64url alphabet (Table 2 of RFC 4648). */
  predicate IsUrlSafeChar(c: char) {
    'A' <= c <= 'Z' || 'a' <= c <= 'z' || '0' <= c <= '9' || c == '-' || c == '_'
  }

  predicate IsUrlSafe(s: string) {
    forall i :: 0 <= i < |s| ==> IsUrlSafeChar(s[i])
  }

  /** The character Table 2 of RFC 4648 assigns to a 6-bit value. */
  function SextetChar(x: int): (c: char)
    requires 0 <= x < 64
    ensures IsUrlSafeChar(c)
  {
    if x < 26 then ('A' as int + x) as char
    else if x < 52 then ('a' as int + x - 26) as char
    else if x < 62 then ('0' as int + x - 52) as char
    else if x == 62 then '-'
    else '_'
  }

  /** The 6-bit value of an alphabet character; `None` outside the alphabet. */
  function CharSextet(c: char): (r: Option<int>)
    ensures r.Some? <==> IsUrlSafeChar(c)
    ensures r.Some? ==> 0 <= r.value < 64 && SextetChar(r.value) == c
  {
    if 'A' <= c <= 'Z' then Some(c as int - 'A' as int)
    else if 'a' <= c <= 'z' then Some(c as int - 'a' as int + 26)
    else if '0' <= c <= '9' then Some(c as int - '0' as int + 52)
    else if c == '-' then Some(62)
    else if c == '_' then Some(63)
    else None
  }

  lemma SextetCharInverse(x: int)
    requires 0 <= x < 64
    ensures CharSextet(SextetChar(x)) == Some(x)
  {
  }

  function At(b: seq<byte>, i: nat): int {
    if i < |b| then b[i] as int else 0
  }

  /** One to three bytes as two to four characters: the 24-bit group of
      section 4 of RFC 4648, zero-filled, cut after the last character that
      carries input bits. */
  function EncodeChunk(b: seq<byte>): (r: string)
    requires 1 <= |b| <= 3
    ensures |r| == |b| + 1
    ensures IsUrlSafe(r)
  {
    var x0, x1, x2 := At(b, 0), At(b, 1), At(b, 2);
    var chars := [SextetChar(x0 / 4), SextetChar((x0 % 4) * 16 + x1 / 16),
                  SextetChar((x1 % 16) * 4 + x2 / 64), SextetChar(x2 % 64)];
    chars[..|b| + 1]
  }

  /** The `=` characters that complete a final chunk of `n` bytes. */
  function Padding(n: int): string {
    if n == 1 then "==" else if n == 2 then "=" else ""
  }

  /** `base64.urlsafe_b64encode(b)`, padded with `=` to a multiple of four. */
  function Encode(b: seq<byte>): (r: string)
    ensures |r| == 4 * ((|b| + 2) / 3)
    decreases |b|
  {
    if |b| == 0 then []
    else if |b| < 3 then
      assert |Padding(|b|)| == 3 - |b|;
      EncodeChunk(b) + Padding(|b|)
    else
      var rest := b[3..];
      assert (|b| + 2) / 3 == (|rest| + 2) / 3 + 1;
      EncodeChunk(b[..3]) + Encode(rest)
  }

  /** The same encoding without padding. */
  function EncodeUnpadded(b: seq<byte>): (r: string)
    ensures |r| == (4 * |b| + 2) / 3
    ensures IsUrlSafe(r)
    decreases |b|
  {
    if |b| == 0 then []
    else if |b| < 3 then EncodeChunk(b)
    else EncodeChunk(b[..3]) + EncodeUnpadded(b[3..])
  }

  /** The padded encoding is the unpadded one followed by the `=` that
      complete its last chunk. */
  lemma {:induction false} PaddingAtEnd(b: seq<byte>)
    ensures Encode(b) == EncodeUnpadded(b) + Padding(|b| % 3)
    decreases |b|
  {
    if |b| >= 3 {
      PaddingAtEnd(b[3..]);
      assert (|b| - 3) % 3 == |b| % 3;
    }
  }

  /** The 6-bit value of character `i` of a chunk, zero past its end. */
  function ValueAt(s: string, i: nat): (v: int)
    requires IsUrlSafe(s)
    ensures 0 <= v < 64
  {
    if i < |s| then CharSextet(s[i]).value else 0
  }

  /** Two to four characters back to the one to three bytes they carry. */
  function DecodeChunk(s: string): (r: Option<seq<byte>>)
    requires 2 <= |s| <= 4
    ensures r.Some? ==> |r.value| == |s| - 1
  {
    if !IsUrlSafe(s) then None
    else
      var v0, v1, v2, v3 := ValueAt(s, 0), ValueAt(s, 1), ValueAt(s, 2), ValueAt(s, 3);
      var bytes := [(v0 * 4 + v1 / 16) as byte,
                    ((v1 % 16) * 16 + v2 / 4) as byte,
                    ((v2 % 4) * 64 + v3) as byte];
      Some(bytes[..|s| - 1])
  }

  /** Decoding of unpadded base64url text; `None` for a character outside the
      alphabet or a length that leaves a single character over. */
  function Decode(s: string): Option<seq<byte>>
    decreases |s|
  {
    if |s| == 0 then Some([])
    else if |s| == 1 then None
    else if |s| < 4 then DecodeChunk(s)
    else match DecodeChunk(s[..4]) {
      case None => None
      case Some(head) =>
        match Decode(s[4..]) {
          case None => None
          case Some(tail) => Some(head + tail)
        }
    }
  }

  /** The bit arithmetic of one 24-bit group: the four 6-bit values give the
      three bytes back. */
  lemma GroupArithmetic(b0: int, b1: int, b2: int)
    requires 0 <= b0 < 256 && 0 <= b1 < 256 && 0 <= b2 < 256
    ensures (b0 / 4) * 4 + ((b0 % 4) * 16 + b1 / 16) / 16 == b0
    ensures (((b0 % 4) * 16 + b1 / 16) % 16) * 16 + ((b1 % 16) * 4 + b2 / 64) / 4 == b1
    ensures (((b1 % 16) * 4 + b2 / 64) % 4) * 64 + b2 % 64 == b2
  {
  }

  /** Reading the characters of an encoded chunk gives back its 6-bit
      values. */
  lemma ChunkValues(b: seq<byte>)
    requires 1 <= |b| <= 3
    ensures var s, x0, x1, x2 := EncodeChunk(b), At(b, 0), At(b, 1), At(b, 2);
      && ValueAt(s, 0) == x0 / 4
      && ValueAt(s, 1) == (x0 % 4) * 16 + x1 / 16
      && (|b| > 1 ==> ValueAt(s, 2) == (x1 % 16) * 4 + x2 / 64)
      && (|b| > 2 ==> ValueAt(s, 3) == x2 % 64)
  {
    var x0, x1, x2 := At(b, 0), At(b, 1), At(b, 2);
    SextetCharInverse(x0 / 4);
    SextetCharInverse((x0 % 4) * 16 + x1 / 16);
    SextetCharInverse((x1 % 16) * 4 + x2 / 64);
    SextetCharInverse(x2 % 64);
  }

  lemma DecodeEncodeChunk(b: seq<byte>)
    requires 1 <= |b| <= 3
    ensures DecodeChunk(EncodeChunk(b)) == Some(b)
  {
    var s := EncodeChunk(b);
    var x0, x1, x2 := At(b, 0), At(b, 1), At(b, 2);
    ChunkValues(b);
    GroupArithmetic(x0, x1, x2);
    var v0, v1, v2, v3 := ValueAt(s, 0), ValueAt(s, 1), ValueAt(s, 2), ValueAt(s, 3);
    assert v0 * 4 + v1 / 16 == x0;
    assert |b| > 1 ==> (v1 % 16) * 16 + v2 / 4 == x1;
    assert |b| > 2 ==> (v2 % 4) * 64 + v3 == x2;
    var r := DecodeChunk(s).value;
    assert forall k :: 0 <= k < |b| ==> r[k] == b[k];
    assert r == b;
  }

  /** Decoding undoes the unpadded encoding. */
  lemma {:induction false} DecodeEncode(b: seq<byte>)
    ensures Decode(EncodeUnpadded(b)) == Some(b)
    decreases |b|
  {
    if 0 < |b| < 3 {
      DecodeEncodeChunk(b);
    } else if |b| >= 3 {
      var s := EncodeUnpadded(b);
      var head := EncodeChunk(b[..3]);
      DecodeEncodeChunk(b[..3]);
      DecodeEncode(b[3..]);
      assert s[..4] == head;
      assert s[4..] == EncodeUnpadded(b[3..]);
      assert b[..3] + b[3..] == b;
    }
  }

  /** Removing every `=` from the padded encoding, as `.replace('=', '')`
      does, gives exactly the unpadded encoding. */
  lemma {:induction false} StripPaddingIsUnpadded(b: seq<byte>)
    ensures Text.ReplaceAll(Encode(b), "=", "") == EncodeUnpadded(b)
    decreases |b|
  {
    if 0 < |b| < 3 {
      var c := EncodeChunk(b);
      assert '=' !in c by {
        forall i | 0 <= i < |c| ensures c[i] != '=' { assert IsUrlSafeChar(c[i]); }
      }
      Text.ReplaceCharConcat(c, Padding(|b|), '=', "");
      Text.ReplaceCharAbsent(c, '=', "");
    } else if |b| >= 3 {
      var c := EncodeChunk(b[..3]);
      assert '=' !in c by {
        forall i | 0 <= i < |c| ensures c[i] != '=' { assert IsUrlSafeChar(c[i]); }
      }
      Text.ReplaceCharConcat(c, Encode(b[3..]), '=', "");
      Text.ReplaceCharAbsent(c, '=', "");
      StripPaddingIsUnpadded(b[3..]);
    }
  }

  /** A full group of three bytes gives its four 6-bit values. */
  lemma FullChunk(b: seq<byte>)
    requires |b| == 3
    ensures EncodeChunk(b) == [SextetChar(b[0] as int / 4),
                               SextetChar((b[0] as int % 4) * 16 + b[1] as int / 16),
                               SextetChar((b[1] as int % 16) * 4 + b[2] as int / 64),
                               SextetChar(b[2] as int % 64)]
  {
  }

  /** A single final byte gives two 6-bit values, the second zero-filled. */
  lemma LastByteChunk(b: seq<byte>)
    requires |b| == 1
    ensures EncodeChunk(b) == [SextetChar(b[0] as int / 4), SextetChar((b[0] as int % 4) * 16)]
  {
    var x0 := b[0] as int;
    assert At(b, 0) == x0 && At(b, 1) == 0 && At(b, 2) == 0;
    var chars := [SextetChar(x0 / 4), SextetChar((x0 % 4) * 16 + 0 / 16),
                  SextetChar((0 % 16) * 4 + 0 / 64), SextetChar(0 % 64)];
    assert EncodeChunk(b) == chars[..2];
  }

  /** Four bytes: a full group, then one byte, padded with "==". */
  lemma GroupThenByte(b: seq<byte>)
    requires |b| == 4
    ensures Encode(b) == EncodeChunk(b[..3]) + EncodeChunk(b[3..]) + "=="
    ensures EncodeUnpadded(b) == EncodeChunk(b[..3]) + EncodeChunk(b[3..])
  {
    var head, rest := EncodeChunk(b[..3]), b[3..];
    assert Encode(b) == head + Encode(rest);
    assert Encode(rest) == EncodeChunk(rest) + Padding(1);
    assert EncodeUnpadded(b) == head + EncodeUnpadded(rest);
    assert EncodeUnpadded(rest) == EncodeChunk(rest);
  }

  /** The characters of the 6-bit values of "foob". */
  lemma FoobSextets()
    ensures SextetChar(0x66 / 4) == 'Z' && SextetChar((0x66 % 4) * 16 + 0x6F / 16) == 'm'
    ensures SextetChar((0x6F % 16) * 4 + 0x6F / 64) == '9' && SextetChar(0x6F % 64) == 'v'
    ensures SextetChar(0x62 / 4) == 'Y' && SextetChar((0x62 % 4) * 16) == 'g'
  {
  }

  /** The test vector BASE64("foob") = "Zm9vYg==" of section 10 of RFC 4648,
      with and without its padding. */
  lemma FoobVector(b: seq<byte>)
    requires b == [0x66, 0x6F, 0x6F, 0x62]
    ensures Encode(b) == "Zm9vYg=="
    ensures EncodeUnpadded(b) == "Zm9vYg"
  {
    var group, last := b[..3], b[3..];
    assert group[0] == 0x66 && group[1] == 0x6F && group[2] == 0x6F && last[0] == 0x62;
    GroupThenByte(b);
    FullChunk(group);
    LastByteChunk(last);
    FoobSextets();
    assert EncodeChunk(group) == "Zm9v" && EncodeChunk(last) == "Yg";
  }
}

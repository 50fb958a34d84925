/** Stand-ins for the cryptographic libraries the service calls: the bcrypt
    password hasher and the hexadecimal encoder applied to random reset tokens. */
module Crypto {

  import opened Results

  // ---------------------------------------------------------------------------
  // Password hashing (bcrypt)
  // ---------------------------------------------------------------------------

  /** Version and cost prefix of a bcrypt hash made with `bcrypt.DefaultCost` (10). */
  const BcryptPrefix: string := "$2a$10$"

  /** The stored form of a password. Real bcrypt mixes in a random salt; the
      model keeps only what the service relies on: the hash is never the
      plaintext, and it verifies exactly the password it was made from. */
  function Hash(password: string): (h: string)
    ensures h != password
    ensures forall q :: Verify(h, q) <==> q == password
  {
    BcryptPrefix + password
  }

  /** `bcrypt.CompareHashAndPassword(hash, password) == nil`: only a hash in
      bcrypt form verifies, and it verifies the password it carries. */
  predicate Verify(hash: string, password: string)
  {
    && |hash| >= |BcryptPrefix|
    && hash[..|BcryptPrefix|] == BcryptPrefix
    && hash[|BcryptPrefix|..] == password
  }

  // ---------------------------------------------------------------------------
  // Hexadecimal encoding (hex.EncodeToString)
  // ---------------------------------------------------------------------------

  newtype Byte = b: int | 0 <= b < 256

  /** The lower-case digit of a nibble, as in Go's `hextable`. */
  function HexDigit(n: int): (c: char)
    requires 0 <= n < 16
  {
    if n < 10 then ('0' as int + n) as char else ('a' as int + n - 10) as char
  }

  /** The nibble a lower-case hex digit stands for. */
  function HexValue(c: char): (v: Option<int>)
    ensures v.Some? ==> 0 <= v.value < 16 && HexDigit(v.value) == c
  {
    if '0' <= c <= '9' then Some(c as int - '0' as int)
    else if 'a' <= c <= 'f' then Some(c as int - 'a' as int + 10)
    else None
  }

  predicate IsHexString(s: string)
  {
    forall i :: 0 <= i < |s| ==> HexValue(s[i]).Some?
  }

  /** Two lower-case hex digits per byte, high nibble first. */
  function HexEncode(bytes: seq<Byte>): (s: string)
    ensures |s| == 2 * |bytes|
    ensures IsHexString(s)
  {
    if bytes == [] then ""
    else
      var b := bytes[0] as int;
      assert HexValue(HexDigit(b / 16)) == Some(b / 16);
      assert HexValue(HexDigit(b % 16)) == Some(b % 16);
      [HexDigit(b / 16), HexDigit(b % 16)] + HexEncode(bytes[1..])
  }

  /** The inverse of `HexEncode` on lower-case text: `None` for an odd length
      or a character that is not a lower-case hex digit. */
  function HexDecode(s: string): (r: Option<seq<Byte>>)
    ensures r.Some? <==> |s| % 2 == 0 && IsHexString(s)
    ensures r.Some? ==> 2 * |r.value| == |s|
  {
    if s == [] then Some([])
    else if |s| < 2 then None
    else
      HexStringSplit(s);
      match (HexValue(s[0]), HexValue(s[1]), HexDecode(s[2..]))
      case (Some(hi), Some(lo), Some(rest)) => Some([(hi * 16 + lo) as Byte] + rest)
      case _ => None
  }

  /** A hex string is two hex digits followed by a hex string. */
  lemma HexStringSplit(s: string)
    requires |s| >= 2
    ensures IsHexString(s) <==> HexValue(s[0]).Some? && HexValue(s[1]).Some? && IsHexString(s[2..])
  {
  }

  lemma {:induction false} HexRoundTrip(bytes: seq<Byte>)
    ensures HexDecode(HexEncode(bytes)) == Some(bytes)
  {
    if bytes != [] {
      var b := bytes[0] as int;
      var s := HexEncode(bytes);
      assert s[2..] == HexEncode(bytes[1..]);
      assert HexValue(s[0]) == Some(b / 16);
      assert HexValue(s[1]) == Some(b % 16);
      HexRoundTrip(bytes[1..]);
      assert [(b / 16 * 16 + b % 16) as Byte] + bytes[1..] == bytes;
    }
  }

  /** Decoding loses nothing either: text that decodes re-encodes to itself,
      so `HexDecode` accepts exactly the strings `HexEncode` produces. */
  lemma {:induction false} HexDecodeRoundTrip(s: string)
    requires HexDecode(s).Some?
    ensures HexEncode(HexDecode(s).value) == s
  {
    if s != [] {
      var hi, lo := HexValue(s[0]).value, HexValue(s[1]).value;
      var rest := HexDecode(s[2..]).value;
      var bytes := HexDecode(s).value;
      assert bytes == [(hi * 16 + lo) as Byte] + rest;
      assert bytes[1..] == rest;
      assert (hi * 16 + lo) / 16 == hi && (hi * 16 + lo) % 16 == lo;
      HexDecodeRoundTrip(s[2..]);
      assert s == [s[0], s[1]] + s[2..];
    }
  }

  /** Distinct random values give distinct reset tokens. */
  lemma HexEncodeInjective(a: seq<Byte>, b: seq<Byte>)
    ensures HexEncode(a) == HexEncode(b) <==> a == b
  {
    HexRoundTrip(a);
    HexRoundTrip(b);
  }
}

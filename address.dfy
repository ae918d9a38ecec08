/** From a public key to its legacy Bitcoin address (api.cpp:48-98): hash the key, prefix
    the version byte, append a four-byte checksum, and write the result in Base58. The
    digests themselves (SHA-256 and RIPEMD-160, with the hex parsing in front of them) are
    parameters; the hex formatting of their output, the hex-to-bytes loop and the assembly
    of the payload are modelled. */
module Address {
  import opened Base58

  /** `hex` of api.cpp:57 and api.cpp:74. */
  const HexDigits: string := "0123456789abcdef"

  function Min(a: nat, b: nat): nat {
    if a <= b then a else b
  }

  // ---------------------------------------------------------------- bytes to hex

  /** The byte `b` read through a signed `char`, as the range loop at api.cpp:58 does. */
  function SignedChar(b: Byte): int {
    if b < 128 then b else b - 256
  }

  /** `(c >> 4) & 0xF`: an arithmetic shift is a division rounding down, and the mask is the
      non-negative remainder. */
  function HighNibble(c: int): (n: nat)
    ensures n < 16
  {
    (c / 16) % 16
  }

  /** `c & 0xF`. */
  function LowNibble(c: int): (n: nat)
    ensures n < 16
  {
    c % 16
  }

  /** Reading the byte as a signed `char` does not disturb its nibbles: the sign extension
      is shifted in above bit 7 and masked off. */
  lemma NibblesOfSignedChar(b: Byte)
    ensures HighNibble(SignedChar(b)) == b / 16
    ensures LowNibble(SignedChar(b)) == b % 16
  {
    if b >= 128 {
      var c := b - 256;
      assert c == (b / 16 - 16) * 16 + b % 16;
      DivModOf(c, b / 16 - 16, b % 16);
      assert (b / 16 - 16) % 16 == b / 16 by {
        DivModOf(b / 16 - 16, -1, b / 16);
      }
    }
  }

  /** Division and remainder by 16 are determined by any decomposition with a remainder in
      range. */
  lemma DivModOf(c: int, q: int, r: int)
    requires c == q * 16 + r && 0 <= r < 16
    ensures c / 16 == q && c % 16 == r
  {
  }

  /** The lower-case hex text of the bytes `bs`, two characters per byte, high nibble first. */
  function Hex(bs: seq<Byte>): (s: string)
    ensures |s| == 2 * |bs|
    ensures forall k | 0 <= k < |s| :: s[k] in HexDigits
    decreases |bs|
  {
    if bs == [] then ""
    else [HexDigits[bs[0] / 16], HexDigits[bs[0] % 16]] + Hex(bs[1..])
  }

  /** The characters for byte `k` of `bs` are at `2 * k` and `2 * k + 1`: its high nibble,
      then its low nibble (api.cpp:58-61). */
  lemma {:induction false} HexAt(bs: seq<Byte>, k: nat)
    requires k < |bs|
    ensures Hex(bs)[2 * k] == HexDigits[bs[k] / 16]
    ensures Hex(bs)[2 * k + 1] == HexDigits[bs[k] % 16]
    decreases k
  {
    var tail := Hex(bs[1..]);
    assert Hex(bs) == [HexDigits[bs[0] / 16], HexDigits[bs[0] % 16]] + tail;
    if k > 0 {
      HexAt(bs[1..], k - 1);
      assert bs[1..][k - 1] == bs[k];
    }
  }

  /** The hex text of a concatenation is the concatenation of the hex texts. */
  lemma {:induction false} HexAppend(a: seq<Byte>, b: seq<Byte>)
    ensures Hex(a + b) == Hex(a) + Hex(b)
    decreases |a|
  {
    if a != [] {
      assert (a + b)[0] == a[0];
      assert (a + b)[1..] == a[1..] + b;
      HexAppend(a[1..], b);
    } else {
      assert a + b == b;
    }
  }

  /** The first `2 * k` hex characters are the hex text of the first `k` bytes. */
  lemma HexPrefix(bs: seq<Byte>, k: nat)
    requires k <= |bs|
    ensures Hex(bs)[..2 * k] == Hex(bs[..k])
  {
    assert bs == bs[..k] + bs[k..];
    HexAppend(bs[..k], bs[k..]);
  }

  /** The hex-digest loop of `getsha256` and `getripemd` (api.cpp:56-62): two characters per
      byte of the digest `md`, each byte read through a signed `char`. */
  method DigestHex(md: seq<Byte>) returns (hex: string)
    ensures hex == Hex(md)
  {
    hex := "";
    var i := 0;
    while i < |md|
      invariant i <= |md|
      invariant hex + Hex(md[i..]) == Hex(md)
    {
      var c := SignedChar(md[i]);
      NibblesOfSignedChar(md[i]);
      hex := hex + [HexDigits[HighNibble(c)]];
      hex := hex + [HexDigits[LowNibble(c)]];
      assert md[i..][1..] == md[i + 1..];
      i := i + 1;
    }
  }

  // ---------------------------------------------------------------- hex to bytes

  predicate IsHexDigit(c: char) {
    '0' <= c <= '9' || 'a' <= c <= 'f' || 'A' <= c <= 'F'
  }

  function HexValue(c: char): (v: nat)
    requires IsHexDigit(c)
    ensures v < 16
  {
    if '0' <= c <= '9' then c as int - '0' as int
    else if 'a' <= c <= 'f' then c as int - 'a' as int + 10
    else c as int - 'A' as int + 10
  }

  /** The white space `strtol` skips. */
  predicate IsSpace(c: char) {
    c == ' ' || c == '\t' || c == '\n' || c == '\r' || c as int == 0x0b || c as int == 0x0c
  }

  /** `strtol(w, nullptr, 16)` on a window of one or two characters (api.cpp:92-93): leading
      white space is skipped, a sign may follow, then hex digits are read as far as they
      go; with no digit the result is 0. A "0x" prefix reads as the digit 0. */
  function Strtol16(w: string): (v: int)
    requires 1 <= |w| <= 2
    ensures -15 <= v < 256
  {
    if |w| == 1 then
      if IsHexDigit(w[0]) then HexValue(w[0]) else 0
    else if IsHexDigit(w[0]) then
      if IsHexDigit(w[1]) then 16 * HexValue(w[0]) + HexValue(w[1]) else HexValue(w[0])
    else if (IsSpace(w[0]) || w[0] == '+') && IsHexDigit(w[1]) then HexValue(w[1])
    else if w[0] == '-' && IsHexDigit(w[1]) then -(HexValue(w[1]) as int)
    else 0
  }

  /** `(unsigned char) strtol(...)`: the value modulo 256. */
  function ParseByte(w: string): Byte
    requires 1 <= |w| <= 2
  {
    Strtol16(w) % 256
  }

  /** The bytes the loop at api.cpp:91-95 reads from `s`: one per window of two characters,
      the last window a single character when `|s|` is odd. */
  function HexBytes(s: string): (bs: seq<Byte>)
    ensures |bs| == (|s| + 1) / 2
    decreases |s|
  {
    if s == [] then []
    else if |s| == 1 then [ParseByte(s)]
    else [ParseByte(s[..2])] + HexBytes(s[2..])
  }

  /** Two hex digits read back as the byte they spell. */
  lemma ParseHexPair(b: Byte)
    ensures ParseByte([HexDigits[b / 16], HexDigits[b % 16]]) == b
  {
    HexDigitValue(b / 16);
    HexDigitValue(b % 16);
  }

  /** Each character of `HexDigits` is a hex digit worth its position. */
  lemma HexDigitValue(d: nat)
    requires d < 16
    ensures IsHexDigit(HexDigits[d]) && HexValue(HexDigits[d]) == d
  {
  }

  /** Reading the hex text of bytes gives the bytes back. */
  lemma {:induction false} HexBytesOfHex(bs: seq<Byte>)
    ensures HexBytes(Hex(bs)) == bs
    decreases |bs|
  {
    if bs != [] {
      var h := Hex(bs);
      assert h[..2] == [HexDigits[bs[0] / 16], HexDigits[bs[0] % 16]];
      assert h[2..] == Hex(bs[1..]);
      ParseHexPair(bs[0]);
      HexBytesOfHex(bs[1..]);
    }
  }

  /** An even-length prefix is read on its own: the windows never straddle it. */
  lemma {:induction false} HexBytesAppend(a: string, b: string)
    requires |a| % 2 == 0
    ensures HexBytes(a + b) == HexBytes(a) + HexBytes(b)
    decreases |a|
  {
    if a != [] {
      assert |a + b| >= 2;
      assert (a + b)[..2] == a[..2];
      assert (a + b)[2..] == a[2..] + b;
      HexBytesAppend(a[2..], b);
    } else {
      assert a + b == b;
    }
  }

  /** Reading from position `i` takes the window at `i`, then reads on after it. */
  lemma HexBytesFrom(s: string, i: nat)
    requires i < |s|
    ensures HexBytes(s[i..]) == [ParseByte(s[i..Min(i + 2, |s|)])] + HexBytes(s[Min(i + 2, |s|)..])
  {
    var rest := s[i..];
    if |rest| >= 2 {
      assert rest[..2] == s[i..i + 2];
      assert rest[2..] == s[i + 2..];
    }
  }

  /** The hex-to-bytes loop of `decodeaddress` (api.cpp:90-95): `substr(i, 2)` is the window
      at `i`, cut short at the end of the string, and `i` advances by two. */
  method HexToBytes(hex: string) returns (bytes: seq<Byte>)
    ensures bytes == HexBytes(hex)
  {
    bytes := [];
    var i := 0;
    while i < |hex|
      invariant i <= |hex| + 1
      invariant bytes + HexBytes(hex[Min(i, |hex|)..]) == HexBytes(hex)
    {
      var end := Min(i + 2, |hex|);
      var window := hex[i..end];
      HexBytesFrom(hex, i);
      bytes := bytes + [ParseByte(window)];
      i := i + 2;
    }
  }

  // ---------------------------------------------------------------- the address

  /** What `decodeaddress` (api.cpp:82-98) returns for the hex public key `pubkey`, where
      `sha256` and `ripemd160` stand for parsing a hex string into bytes and hashing them. */
  function AddressOf(pubkey: string, sha256: string -> seq<Byte>, ripemd160: string -> seq<Byte>)
    : string
  {
    var r := Hex(ripemd160(Hex(sha256(pubkey))));
    var extended := "00" + r;
    var sha2 := Hex(sha256(Hex(sha256(extended))));
    Encode(HexBytes(extended + sha2[..Min(8, |sha2|)]))
  }

  /** `decodeaddress` (api.cpp:82-98). */
  method DecodeAddress(pubkey: string, sha256: string -> seq<Byte>, ripemd160: string -> seq<Byte>)
    returns (wallet: string)
    ensures wallet == AddressOf(pubkey, sha256, ripemd160)
  {
    var sha := DigestHex(sha256(pubkey));
    var r := DigestHex(ripemd160(sha));
    var extended := "00" + r;
    var sha1 := DigestHex(sha256(extended));
    var sha2 := DigestHex(sha256(sha1));
    var checksum := sha2[..Min(8, |sha2|)];
    var inHex := extended + checksum;
    var bytes := HexToBytes(inHex);
    wallet := EncodeBase58(bytes);
  }

  /** Whatever the digests, the version prefix "00" reads as a zero byte, so every address
      starts with '1' (api.cpp:85, 91-96). */
  lemma AddressStartsWithOne(pubkey: string, sha256: string -> seq<Byte>,
                             ripemd160: string -> seq<Byte>)
    ensures |AddressOf(pubkey, sha256, ripemd160)| > 0
    ensures AddressOf(pubkey, sha256, ripemd160)[0] == '1'
  {
    var r := Hex(ripemd160(Hex(sha256(pubkey))));
    var extended := "00" + r;
    var sha2 := Hex(sha256(Hex(sha256(extended))));
    var inHex := extended + sha2[..Min(8, |sha2|)];
    assert inHex[..2] == "00";
    assert ParseByte("00") == 0;
    EncodeZeroFirst(HexBytes(inHex));
  }

  /** With digests of the standard lengths, the address decodes to the 25-byte payload: the
      version byte 0, the 20-byte RIPEMD-160 hash of the SHA-256 hash of the key, and the first
      four bytes of the double SHA-256 of those 21 bytes as checksum. */
  lemma AddressPayload(pubkey: string, sha256: string -> seq<Byte>, ripemd160: string -> seq<Byte>)
    requires forall m :: |sha256(m)| == 32
    requires forall m :: |ripemd160(m)| == 20
    ensures var wallet := AddressOf(pubkey, sha256, ripemd160);
            var key := ripemd160(Hex(sha256(pubkey)));
            var check := sha256(Hex(sha256(Hex([0] + key))));
            IsBase58(wallet) && Decode(wallet) == [0] + key + check[..4]
            && |Decode(wallet)| == 25
  {
    var key := ripemd160(Hex(sha256(pubkey)));
    assert "00" == Hex([0]);
    HexAppend([0], key);
    var extended := Hex([0] + key);
    var digest := sha256(Hex(sha256(extended)));
    var sha2 := Hex(digest);
    assert sha2[..Min(8, |sha2|)] == Hex(digest[..4]) by {
      HexPrefix(digest, 4);
    }
    HexAppend([0] + key, digest[..4]);
    var payload := [0] + key + digest[..4];
    HexBytesOfHex(payload);
    DecodeEncode(payload);
  }
}

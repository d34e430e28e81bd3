/** The unpadded base64url codec of `aap/keys.py`, over models of the two library calls it makes
    (sections 4 and 5 of RFC 4648). */
module Base64Url {
  import opened Values

  ghost predicate IsBytes(b: seq<nat>) {
    forall i :: 0 <= i < |b| ==> b[i] < 256
  }

  ghost predicate Unpadded(s: string) {
    forall i :: 0 <= i < |s| ==> s[i] != '=' && s[i] < 128 as char
  }

  function Letter(v: nat): (c: char)
    requires v < 64
    ensures c != '=' && c < 128 as char && SixBits(c) == Some(v)
  {
    if v < 26 then 'A' + v as char
    else if v < 52 then 'a' + (v - 26) as char
    else if v < 62 then '0' + (v - 52) as char
    else if v == 62 then '-'
    else '_'
  }

  /** The decoder's table. The URL-safe letters are first translated to '+' and '/', which are
      themselves still accepted. */
  function SixBits(c: char): (v: Option<nat>)
    ensures v.Some? ==> v.value < 64
  {
    if 'A' <= c <= 'Z' then Some((c - 'A') as nat)
    else if 'a' <= c <= 'z' then Some((c - 'a') as nat + 26)
    else if '0' <= c <= '9' then Some((c - '0') as nat + 52)
    else if c == '-' || c == '+' then Some(62)
    else if c == '_' || c == '/' then Some(63)
    else None
  }

  /** The URL-safe alphabet of section 5 of RFC 4648. */
  const TABLE := UPPER + LOWER + "0123456789-_"

  const UPPER := "ABCDEFGHIJKLMNOPQRSTUVWXYZ"

  const LOWER := "abcdefghijklmnopqrstuvwxyz"

  lemma LettersAreTable()
    ensures |TABLE| == 64 && forall v: nat :: v < 64 ==> Letter(v) == TABLE[v]
  {
    forall v: nat | v < 64 ensures Letter(v) == TABLE[v] { LetterInTable(v); }
  }

  lemma LetterInTable(v: nat)
    requires v < 64
    ensures Letter(v) == TABLE[v]
  {
    if v < 26 {
      UpperAt(v);
    } else if v < 52 {
      LowerAt(v - 26);
    }
  }

  lemma UpperAt(i: nat)
    requires i < 26
    ensures UPPER[i] == 'A' + i as char
  {
  }

  lemma LowerAt(i: nat)
    requires i < 26
    ensures LOWER[i] == 'a' + i as char
  {
  }

  /** A character is read as the place it has in the table; '+' and '/' are read like '-' and '_'. */
  lemma SixBitsExactly(v: nat, c: char)
    ensures SixBits(c) == Some(v) <==> v < 64 && (c == TABLE[v] || (v == 62 && c == '+') || (v == 63 && c == '/'))
  {
    if v < 64 { LetterInTable(v); }
  }

  /** The letters of one byte and the four bits after it. */
  function Two(x: nat, y: nat): (s: string)
    requires x < 256 && y < 16
    ensures |s| == 2 && Unpadded(s)
  {
    [Letter(x / 4), Letter(x % 4 * 16 + y)]
  }

  /** The letters of two bytes and the two bits after them. */
  function Three(x: nat, y: nat, z: nat): (s: string)
    requires x < 256 && y < 256 && z < 4
    ensures |s| == 3 && Unpadded(s)
  {
    Two(x, y / 16) + [Letter(y % 16 * 4 + z)]
  }

  /** Three bytes become four letters; a last group of one or two bytes becomes two or three. */
  function DataLetters(b: seq<nat>): string
    requires IsBytes(b)
  {
    if b == [] then ""
    else if |b| == 1 then Two(b[0], 0)
    else if |b| == 2 then Three(b[0], b[1], 0)
    else Three(b[0], b[1], b[2] / 64) + ([Letter(b[2] % 64)] + DataLetters(b[3..]))
  }

  /** Three bytes are 24 bits, cut into four letters from the left; a last group is filled up with zero
      bits to a multiple of six. */
  lemma GroupOfThree(b: seq<nat>, v: seq<nat>)
    requires IsBytes(b) && |b| >= 3
    requires |v| == 4 && forall i :: 0 <= i < 4 ==> v[i] < 64
    requires b[0] * 0x1_0000 + b[1] * 0x100 + b[2] == v[0] * 0x4_0000 + v[1] * 0x1000 + v[2] * 0x40 + v[3]
    ensures DataLetters(b) == [TABLE[v[0]], TABLE[v[1]], TABLE[v[2]], TABLE[v[3]]] + DataLetters(b[3..])
  {
    LettersAreTable();
    SixBitGroups(b[0], b[1], b[2], v[0], v[1], v[2], v[3]);
    ThreeLetters(b[0], b[1], b[2] / 64, v[0], v[1], v[2]);
    Regrouped(TABLE[v[0]], TABLE[v[1]], TABLE[v[2]], TABLE[v[3]], DataLetters(b[3..]));
  }

  lemma ThreeLetters(x: nat, y: nat, z: nat, v0: nat, v1: nat, v2: nat)
    requires x < 256 && y < 256 && z < 4 && v0 < 64 && v1 < 64 && v2 < 64
    requires v0 == x / 4 && v1 == x % 4 * 16 + y / 16 && v2 == y % 16 * 4 + z
    ensures Three(x, y, z) == [Letter(v0), Letter(v1), Letter(v2)]
  {
  }

  lemma Regrouped(a: char, b: char, c: char, d: char, rest: string)
    ensures [a, b, c] + ([d] + rest) == [a, b, c, d] + rest
  {
  }

  lemma SixBitGroups(x: nat, y: nat, z: nat, v0: nat, v1: nat, v2: nat, v3: nat)
    requires x < 256 && y < 256 && z < 256 && v0 < 64 && v1 < 64 && v2 < 64 && v3 < 64
    requires x * 0x1_0000 + y * 0x100 + z == v0 * 0x4_0000 + v1 * 0x1000 + v2 * 0x40 + v3
    ensures v0 == x / 4 && v1 == x % 4 * 16 + y / 16 && v2 == y % 16 * 4 + z / 64 && v3 == z % 64
  {
  }

  lemma GroupOfTwo(b: seq<nat>, v: seq<nat>)
    requires IsBytes(b) && |b| == 2
    requires |v| == 3 && forall i :: 0 <= i < 3 ==> v[i] < 64
    requires (b[0] * 0x100 + b[1]) * 4 == v[0] * 0x1000 + v[1] * 0x40 + v[2]
    ensures DataLetters(b) == [TABLE[v[0]], TABLE[v[1]], TABLE[v[2]]]
  {
    LettersAreTable();
    SixBitGroups(b[0], b[1], 0, v[0], v[1], v[2], 0);
  }

  lemma GroupOfOne(b: seq<nat>, v: seq<nat>)
    requires IsBytes(b) && |b| == 1
    requires |v| == 2 && forall i :: 0 <= i < 2 ==> v[i] < 64
    requires b[0] * 16 == v[0] * 0x40 + v[1]
    ensures DataLetters(b) == [TABLE[v[0]], TABLE[v[1]]]
  {
    LettersAreTable();
    SixBitGroups(b[0], 0, 0, v[0], v[1], 0, 0);
    assert Two(b[0], 0) == [Letter(v[0]), Letter(v[1])];
  }

  function PadCount(b: seq<nat>): nat {
    if |b| % 3 == 0 then 0 else 3 - |b| % 3
  }

  function Padding(k: nat): string {
    seq(k, _ => '=')
  }

  /** `base64.urlsafe_b64encode`: padded to a multiple of four letters. */
  function UrlsafeB64Encode(b: seq<nat>): string
    requires IsBytes(b)
  {
    DataLetters(b) + Padding(PadCount(b))
  }

  /** The bits of a letter that are not written out with it. */
  function Carried(quad: nat, v: nat): nat {
    if quad == 0 then v else if quad == 1 then v % 16 else if quad == 2 then v % 4 else 0
  }

  function Written(quad: nat, left: nat, v: nat): seq<nat> {
    if quad == 0 then []
    else if quad == 1 then [left * 4 + v / 16]
    else if quad == 2 then [left * 16 + v / 4]
    else [left * 64 + v]
  }

  /** The lenient scan behind `base64.urlsafe_b64decode`: characters outside the table are skipped,
      and enough padding for the open group ends the scan. `left` holds the bits not yet written. */
  function Scan(s: string, quad: nat, left: nat, pads: nat, out: seq<nat>): Result<seq<nat>>
    requires quad < 4
  {
    if s == "" then if quad == 0 then Success(out) else Failure("incorrect padding")
    else if s[0] == '=' then
      if quad >= 2 && quad + pads + 1 >= 4 then Success(out)
      else Scan(s[1..], quad, left, if quad >= 2 then pads + 1 else pads, out)
    else match SixBits(s[0])
      case None => Scan(s[1..], quad, left, pads, out)
      case Some(v) => Scan(s[1..], (quad + 1) % 4, Carried(quad, v), 0, out + Written(quad, left, v))
  }

  function UrlsafeB64Decode(s: string): Result<seq<nat>> {
    if exists c <- s :: c >= 128 as char then Failure("not ASCII") else Scan(s, 0, 0, 0, [])
  }

  /** `rstrip(b"=")`. */
  function StripPadding(s: string): string {
    if s != "" && s[|s| - 1] == '=' then StripPadding(s[..|s| - 1]) else s
  }

  function EncodeB64Url(b: seq<nat>): string
    requires IsBytes(b)
  {
    StripPadding(UrlsafeB64Encode(b))
  }

  function DecodeB64Url(s: string): Result<seq<nat>> {
    if '=' in s then Failure("base64url must not contain padding")
    else UrlsafeB64Decode(s + Padding((0 - |s|) % 4))
  }

  // ---- padding ----

  lemma UnpaddedJoin(s: string, t: string)
    requires Unpadded(s) && Unpadded(t)
    ensures Unpadded(s + t)
  {
  }

  lemma {:induction false} DataLettersUnpadded(b: seq<nat>)
    requires IsBytes(b)
    ensures Unpadded(DataLetters(b))
  {
    if |b| >= 3 {
      DataLettersUnpadded(b[3..]);
      UnpaddedJoin([Letter(b[2] % 64)], DataLetters(b[3..]));
      UnpaddedJoin(Three(b[0], b[1], b[2] / 64), [Letter(b[2] % 64)] + DataLetters(b[3..]));
    }
  }

  lemma {:induction false} DataLettersCount(b: seq<nat>)
    requires IsBytes(b)
    ensures |DataLetters(b)| == |b| / 3 * 4 + (if |b| % 3 == 0 then 0 else |b| % 3 + 1)
  {
    if |b| >= 3 { DataLettersCount(b[3..]); }
  }

  lemma {:induction false} StripUndoesPad(body: string, k: nat)
    requires Unpadded(body)
    ensures StripPadding(body + Padding(k)) == body
  {
    if k > 0 {
      assert (body + Padding(k))[..|body| + k - 1] == body + Padding(k - 1);
      StripUndoesPad(body, k - 1);
    } else {
      assert body + Padding(0) == body;
    }
  }

  lemma PadFromLength(length: nat, n: nat)
    requires length == n / 3 * 4 + (if n % 3 == 0 then 0 else n % 3 + 1)
    ensures (0 - length) % 4 == if n % 3 == 0 then 0 else 3 - n % 3
  {
  }

  /** The encoding carries no '=', and `-len % 4` is exactly the number of pad characters, 0, 1 or 2,
      that were stripped. */
  lemma PaddingIsRecoverable(b: seq<nat>)
    requires IsBytes(b)
    ensures var s := EncodeB64Url(b);
            && s == DataLetters(b) && Unpadded(s)
            && (0 - |s|) % 4 == PadCount(b) <= 2
            && s + Padding((0 - |s|) % 4) == UrlsafeB64Encode(b)
  {
    var body, k := DataLetters(b), PadCount(b);
    DataLettersUnpadded(b);
    DataLettersCount(b);
    StripUndoesPad(body, k);
    assert EncodeB64Url(b) == body;
    PadFromLength(|body|, |b|);
  }

  // ---- round trip ----

  lemma {:induction false} ScanReadsEncoding(b: seq<nat>, out: seq<nat>)
    requires IsBytes(b)
    ensures Scan(UrlsafeB64Encode(b), 0, 0, 0, out) == Success(out + b)
  {
    if |b| < 3 {
      ScanLastGroup(b, out);
    } else {
      ScanFullGroup(b, out);
      ScanReadsEncoding(b[3..], out + b[..3]);
      assert out + b[..3] + b[3..] == out + b;
    }
  }

  lemma FullGroup(b: seq<nat>)
    requires IsBytes(b) && |b| >= 3
    ensures UrlsafeB64Encode(b)
         == Three(b[0], b[1], b[2] / 64) + ([Letter(b[2] % 64)] + UrlsafeB64Encode(b[3..]))
  {
    assert PadCount(b) == PadCount(b[3..]);
  }

  lemma ScanFullGroup(b: seq<nat>, out: seq<nat>)
    requires IsBytes(b) && |b| >= 3
    ensures Scan(UrlsafeB64Encode(b), 0, 0, 0, out) == Scan(UrlsafeB64Encode(b[3..]), 0, 0, 0, out + b[..3])
  {
    var x, y, z := b[0], b[1], b[2];
    assert b[..3] == [x, y, z];
    FullGroup(b);
    ScanFour(x, y, z, UrlsafeB64Encode(b[3..]), out);
  }

  lemma ScanLastGroup(b: seq<nat>, out: seq<nat>)
    requires IsBytes(b) && |b| < 3
    ensures Scan(UrlsafeB64Encode(b), 0, 0, 0, out) == Success(out + b)
  {
    if |b| == 0 {
      assert UrlsafeB64Encode(b) == "" && out + b == out;
    } else if |b| == 1 {
      assert Padding(2) == "==" && UrlsafeB64Encode(b) == Two(b[0], 0) + "==";
      ScanTwo(b[0], 0, "==", out);
      assert "=="[1..] == "=" && out + b == out + [b[0]];
    } else {
      assert Padding(1) == "=" && UrlsafeB64Encode(b) == Three(b[0], b[1], 0) + "=";
      ScanThree(b[0], b[1], 0, "=", out);
      assert out + b == out + [b[0], b[1]];
    }
  }

  lemma ScanLetter(v: nat, rest: string, quad: nat, left: nat, out: seq<nat>)
    requires v < 64 && quad < 4
    ensures Scan([Letter(v)] + rest, quad, left, 0, out)
         == Scan(rest, (quad + 1) % 4, Carried(quad, v), 0, out + Written(quad, left, v))
  {
    assert ([Letter(v)] + rest)[1..] == rest;
  }

  /** Two letters write one byte and leave four bits behind. */
  lemma ScanTwo(x: nat, y: nat, tail: string, out: seq<nat>)
    requires x < 256 && y < 16
    ensures Scan(Two(x, y) + tail, 0, 0, 0, out) == Scan(tail, 2, y, 0, out + [x])
  {
    var v := x % 4 * 16 + y;
    assert Two(x, y) + tail == [Letter(x / 4)] + ([Letter(v)] + tail);
    ScanLetter(x / 4, [Letter(v)] + tail, 0, 0, out);
    assert out + [] == out;
    ScanLetter(v, tail, 1, x / 4, out);
    assert v / 16 == x % 4 && v % 16 == y;
  }

  /** Three letters write two bytes and leave two bits behind. */
  lemma ScanThree(x: nat, y: nat, z: nat, tail: string, out: seq<nat>)
    requires x < 256 && y < 256 && z < 4
    ensures Scan(Three(x, y, z) + tail, 0, 0, 0, out) == Scan(tail, 3, z, 0, out + [x, y])
  {
    var third := [Letter(y % 16 * 4 + z)] + tail;
    assert Three(x, y, z) + tail == Two(x, y / 16) + third;
    ScanTwo(x, y / 16, third, out);
    ScanLetter(y % 16 * 4 + z, tail, 2, y / 16, out + [x]);
    assert out + [x] + [y] == out + [x, y];
  }

  lemma ScanFour(x: nat, y: nat, z: nat, tail: string, out: seq<nat>)
    requires x < 256 && y < 256 && z < 256
    ensures Scan(Three(x, y, z / 64) + ([Letter(z % 64)] + tail), 0, 0, 0, out)
         == Scan(tail, 0, 0, 0, out + [x, y, z])
  {
    var fourth := [Letter(z % 64)] + tail;
    calc {
      Scan(Three(x, y, z / 64) + fourth, 0, 0, 0, out);
      { ScanThree(x, y, z / 64, fourth, out); }
      Scan(fourth, 3, z / 64, 0, out + [x, y]);
      { ScanLetter(z % 64, tail, 3, z / 64, out + [x, y]); }
      Scan(tail, 0, 0, 0, out + [x, y] + Written(3, z / 64, z % 64));
      { assert out + [x, y] + [z] == out + [x, y, z]; }
      Scan(tail, 0, 0, 0, out + [x, y, z]);
    }
  }

  /** Every byte string survives encoding and decoding. */
  lemma RoundTrip(b: seq<nat>)
    requires IsBytes(b)
    ensures DecodeB64Url(EncodeB64Url(b)) == Success(b)
  {
    var s := EncodeB64Url(b);
    PaddingIsRecoverable(b);
    DecodeOfUnpadded(s);
    ScanReadsEncoding(b, []);
    assert [] + b == b;
  }

  lemma DecodeOfUnpadded(s: string)
    requires Unpadded(s)
    ensures DecodeB64Url(s) == Scan(s + Padding((0 - |s|) % 4), 0, 0, 0, [])
  {
    var padded := s + Padding((0 - |s|) % 4);
    assert forall c <- padded :: c < 128 as char;
  }

  /** Hence no two byte strings share an encoding. */
  lemma EncodingIsInjective(a: seq<nat>, b: seq<nat>)
    requires IsBytes(a) && IsBytes(b) && EncodeB64Url(a) == EncodeB64Url(b)
    ensures a == b
  {
    RoundTrip(a);
    RoundTrip(b);
  }

  // ---- what decodes at all ----

  ghost predicate InTable(s: string) {
    forall i :: 0 <= i < |s| ==> SixBits(s[i]).Some?
  }

  lemma {:induction false} ScanPadding(k: nat, quad: nat, left: nat, pads: nat, out: seq<nat>)
    requires quad < 4
    ensures quad == 1 ==> Scan(Padding(k), quad, left, pads, out).Failure?
    ensures quad >= 2 && quad + pads + k == 4 ==> Scan(Padding(k), quad, left, pads, out).Success? || k == 0
  {
    if k > 0 {
      assert Padding(k)[1..] == Padding(k - 1);
      ScanPadding(k - 1, quad, left, if quad >= 2 then pads + 1 else pads, out);
    }
  }

  lemma {:induction false} ScanTable(s: string, k: nat, quad: nat, left: nat, out: seq<nat>)
    requires InTable(s) && quad < 4 && (quad + |s| + k) % 4 == 0 && k < 4
    requires s == "" ==> k == 0 || quad != 0
    ensures Scan(s + Padding(k), quad, left, 0, out).Success? <==> k != 3
  {
    var all := s + Padding(k);
    if s != "" {
      assert all[0] == s[0] && all[1..] == s[1..] + Padding(k);
      var v := SixBits(s[0]).value;
      ScanTable(s[1..], k, (quad + 1) % 4, Carried(quad, v), out + Written(quad, left, v));
    } else if k > 0 {
      assert all == Padding(k);
      ScanPadding(k, quad, left, 0, out);
    }
  }

  /** Text made of letters only is refused exactly when its length is one more than a multiple of 4. */
  lemma DecodesExactly(s: string)
    requires InTable(s)
    ensures DecodeB64Url(s).Success? <==> |s| % 4 != 1
  {
    var k := (0 - |s|) % 4;
    assert '=' !in s;
    assert forall c <- s + Padding(k) :: c < 128 as char;
    ScanTable(s, k, 0, 0, []);
  }

  // ---- what the decoder skips ----

  /** ASCII characters that are neither in the table nor padding. */
  ghost predicate Foreign(s: string) {
    Unpadded(s) && forall i :: 0 <= i < |s| ==> SixBits(s[i]).None?
  }

  lemma {:induction false} SkipForeign(junk: string, s: string, quad: nat, left: nat, pads: nat, out: seq<nat>)
    requires Foreign(junk) && quad < 4
    ensures Scan(junk + s, quad, left, pads, out) == Scan(s, quad, left, pads, out)
  {
    if junk == "" {
      assert junk + s == s;
    } else {
      assert (junk + s)[1..] == junk[1..] + s;
      SkipForeign(junk[1..], s, quad, left, pads, out);
    }
  }

  lemma {:induction false} SkipForeignInside(s: string, junk: string, t: string,
                                             quad: nat, left: nat, pads: nat, out: seq<nat>)
    requires Foreign(junk) && quad < 4
    ensures Scan(s + (junk + t), quad, left, pads, out) == Scan(s + t, quad, left, pads, out)
  {
    if s == "" {
      assert s + (junk + t) == junk + t && s + t == t;
      SkipForeign(junk, t, quad, left, pads, out);
    } else {
      var rest := s[1..];
      assert (s + (junk + t))[1..] == rest + (junk + t) && (s + t)[1..] == rest + t;
      if s[0] == '=' {
        SkipForeignInside(rest, junk, t, quad, left, if quad >= 2 then pads + 1 else pads, out);
      } else if SixBits(s[0]).None? {
        SkipForeignInside(rest, junk, t, quad, left, pads, out);
      } else {
        var v := SixBits(s[0]).value;
        SkipForeignInside(rest, junk, t, (quad + 1) % 4, Carried(quad, v), 0, out + Written(quad, left, v));
      }
    }
  }

  lemma LibrarySkipsForeign(s: string, junk: string, t: string)
    requires Foreign(junk)
    ensures UrlsafeB64Decode(s + (junk + t)) == UrlsafeB64Decode(s + t)
  {
    SkipForeignInside(s, junk, t, 0, 0, 0, []);
    assert forall c <- s + t :: c in s + (junk + t);
    assert forall c <- s + (junk + t) :: c in s + t || c in junk;
  }

  lemma PadOfJoin(m: nat, n: nat)
    requires m % 4 == 0
    ensures (0 - (m + n)) % 4 == (0 - n) % 4
  {
  }

  /** Decoding is lenient: foreign characters go unnoticed anywhere, in fours so that the padding still
      fits. */
  lemma ForeignTextIsSkipped(s: string, junk: string, t: string)
    requires Foreign(junk) && |junk| % 4 == 0
    ensures DecodeB64Url(s + junk + t) == DecodeB64Url(s + t)
  {
    var k := (0 - |s + t|) % 4;
    PadOfJoin(|junk|, |s + t|);
    assert s + junk + t + Padding(k) == s + (junk + (t + Padding(k)));
    assert s + t + Padding(k) == s + (t + Padding(k));
    LibrarySkipsForeign(s, junk, t + Padding(k));
  }

  // ---- the one text of a byte string that encodes it ----

  predicate UrlSafe(c: char) {
    c != '+' && c != '/' && SixBits(c).Some?
  }

  /** Text an encoder could have written: URL-safe letters only, no lone letter at the end, and no bits
      set in the last letter that belong to no byte. */
  ghost predicate Canonical(s: string) {
    && (forall i :: 0 <= i < |s| ==> UrlSafe(s[i]))
    && |s| % 4 != 1
    && (s != "" ==> Carried((|s| - 1) % 4, SixBits(s[|s| - 1]).value) == 0)
  }

  /** A text as the six-bit values of its letters, and back. */
  function Values64(s: string): (vs: seq<nat>)
    requires forall i :: 0 <= i < |s| ==> SixBits(s[i]).Some?
    ensures |vs| == |s| && forall i :: 0 <= i < |s| ==> vs[i] < 64 && SixBits(s[i]) == Some(vs[i])
  {
    seq(|s|, i requires 0 <= i < |s| => SixBits(s[i]).value)
  }

  ghost predicate InBase64(vs: seq<nat>) {
    forall i :: 0 <= i < |vs| ==> vs[i] < 64
  }

  function Letters(vs: seq<nat>): (s: string)
    requires InBase64(vs)
    ensures |s| == |vs| && forall i :: 0 <= i < |s| ==> s[i] == Letter(vs[i])
  {
    seq(|vs|, i requires 0 <= i < |vs| => Letter(vs[i]))
  }

  lemma LetterOfBits(c: char)
    requires UrlSafe(c)
    ensures Letter(SixBits(c).value) == c
  {
  }

  lemma LetterIsUrlSafe(v: nat)
    requires v < 64
    ensures UrlSafe(Letter(v))
  {
  }

  /** Values that spell whole bytes. */
  ghost predicate Whole(vs: seq<nat>) {
    && InBase64(vs) && |vs| % 4 != 1
    && (vs != [] ==> Carried((|vs| - 1) % 4, vs[|vs| - 1]) == 0)
  }

  /** Three bytes as four six-bit values, and back. */
  function Sixes(x: nat, y: nat, z: nat): (vs: seq<nat>)
    requires x < 256 && y < 256 && z < 256
    ensures |vs| == 4 && InBase64(vs)
  {
    [x / 4, x % 4 * 16 + y / 16, y % 16 * 4 + z / 64, z % 64]
  }

  function Eights(u: nat, v: nat, w: nat, x: nat): (b: seq<nat>)
    requires u < 64 && v < 64 && w < 64 && x < 64
    ensures |b| == 3 && IsBytes(b)
  {
    [u * 4 + v / 16, v % 16 * 16 + w / 4, w % 4 * 64 + x]
  }

  lemma Packed4(q: nat, d: nat)
    requires d < 4
    ensures (q * 4 + d) / 4 == q && (q * 4 + d) % 4 == d
  {
  }

  lemma Packed16(q: nat, d: nat)
    requires d < 16
    ensures (q * 16 + d) / 16 == q && (q * 16 + d) % 16 == d
  {
  }

  lemma Packed64(q: nat, d: nat)
    requires d < 64
    ensures (q * 64 + d) / 64 == q && (q * 64 + d) % 64 == d
  {
  }

  /** Sextets `u`, `v`, `w`, `x`, the middle two in the halves that different bytes hold. */
  lemma SixesOfHalves(u: nat, v1: nat, v0: nat, w1: nat, w0: nat, x: nat)
    requires u < 64 && v1 < 4 && v0 < 16 && w1 < 16 && w0 < 4 && x < 64
    ensures Sixes(u * 4 + v1, v0 * 16 + w1, w0 * 64 + x) == [u, v1 * 16 + v0, w1 * 4 + w0, x]
  {
    Packed4(u, v1);
    Packed16(v0, w1);
    Packed64(w0, x);
  }

  lemma SixesOfEights(u: nat, v: nat, w: nat, x: nat)
    requires u < 64 && v < 64 && w < 64 && x < 64
    ensures var b := Eights(u, v, w, x); Sixes(b[0], b[1], b[2]) == [u, v, w, x]
  {
    SixesOfHalves(u, v / 16, v % 16, w / 4, w % 4, x);
  }

  lemma FourMore(n: nat)
    ensures (n + 4) % 4 == n % 4 && (n + 4 - 1) % 4 == (n - 1) % 4
  {
  }

  lemma WholeJoin(group: seq<nat>, rest: seq<nat>)
    requires |group| == 4 && InBase64(group) && Whole(rest)
    ensures Whole(group + rest)
  {
    var vs := group + rest;
    FourMore(|rest|);
    assert rest != [] ==> vs[|vs| - 1] == rest[|rest| - 1];
  }

  lemma WholeRest(vs: seq<nat>)
    requires Whole(vs) && |vs| >= 4
    ensures Whole(vs[4..])
  {
    var rest := vs[4..];
    FourMore(|rest|);
    assert rest != [] ==> vs[|vs| - 1] == rest[|rest| - 1];
  }

  /** The bits of some bytes, six at a time, the last value filled up with zeros. */
  function Sextets(b: seq<nat>): (vs: seq<nat>)
    requires IsBytes(b)
    ensures Whole(vs)
  {
    if b == [] then []
    else if |b| == 1 then Sixes(b[0], 0, 0)[..2]
    else if |b| == 2 then Sixes(b[0], b[1], 0)[..3]
    else
      WholeJoin(Sixes(b[0], b[1], b[2]), Sextets(b[3..]));
      Sixes(b[0], b[1], b[2]) + Sextets(b[3..])
  }

  /** The bytes that some values spell. */
  function Octets(vs: seq<nat>): (b: seq<nat>)
    requires Whole(vs)
    ensures IsBytes(b)
  {
    if vs == [] then []
    else if |vs| == 2 then Eights(vs[0], vs[1], 0, 0)[..1]
    else if |vs| == 3 then Eights(vs[0], vs[1], vs[2], 0)[..2]
    else
      WholeRest(vs);
      Eights(vs[0], vs[1], vs[2], vs[3]) + Octets(vs[4..])
  }

  lemma TwoSextets(u: nat, v: nat)
    requires u < 64 && v < 64 && v % 16 == 0
    ensures Sextets(Eights(u, v, 0, 0)[..1]) == [u, v]
  {
    var b := Eights(u, v, 0, 0);
    SixesOfEights(u, v, 0, 0);
    assert b[1] == 0 && b[2] == 0 && b[..1] == [b[0]];
    assert [u, v, 0, 0][..2] == [u, v];
  }

  lemma ThreeSextets(u: nat, v: nat, w: nat)
    requires u < 64 && v < 64 && w < 64 && w % 4 == 0
    ensures Sextets(Eights(u, v, w, 0)[..2]) == [u, v, w]
  {
    var b := Eights(u, v, w, 0);
    SixesOfEights(u, v, w, 0);
    assert b[2] == 0 && b[..2] == [b[0], b[1]];
    assert [u, v, w, 0][..3] == [u, v, w];
  }

  lemma OctetsOfTwo(vs: seq<nat>)
    requires Whole(vs) && |vs| == 2
    ensures vs[1] % 16 == 0 && Octets(vs) == Eights(vs[0], vs[1], 0, 0)[..1]
  {
    assert (|vs| - 1) % 4 == 1;
  }

  lemma OctetsOfThree(vs: seq<nat>)
    requires Whole(vs) && |vs| == 3
    ensures vs[2] % 4 == 0 && Octets(vs) == Eights(vs[0], vs[1], vs[2], 0)[..2]
  {
    assert (|vs| - 1) % 4 == 2;
  }

  ghost predicate ReadsBack(vs: seq<nat>)
    requires Whole(vs)
  {
    Sextets(Octets(vs)) == vs
  }

  lemma SextetsOfTwo(vs: seq<nat>)
    requires Whole(vs) && |vs| == 2
    ensures ReadsBack(vs)
  {
    OctetsOfTwo(vs);
    TwoSextets(vs[0], vs[1]);
  }

  lemma SextetsOfThree(vs: seq<nat>)
    requires Whole(vs) && |vs| == 3
    ensures ReadsBack(vs)
  {
    OctetsOfThree(vs);
    ThreeSextets(vs[0], vs[1], vs[2]);
  }

  lemma SextetsOfGroup(group: seq<nat>, rest: seq<nat>)
    requires |group| == 3 && IsBytes(group) && IsBytes(rest)
    ensures Sextets(group + rest) == Sixes(group[0], group[1], group[2]) + Sextets(rest)
  {
    assert (group + rest)[3..] == rest;
  }

  lemma OneMoreGroup(vs: seq<nat>)
    requires Whole(vs) && |vs| >= 4 && Whole(vs[4..]) && ReadsBack(vs[4..])
    ensures ReadsBack(vs)
  {
    var rest, group := vs[4..], Eights(vs[0], vs[1], vs[2], vs[3]);
    calc {
      Sextets(Octets(vs));
      Sextets(group + Octets(rest));
      { SextetsOfGroup(group, Octets(rest)); }
      Sixes(group[0], group[1], group[2]) + Sextets(Octets(rest));
      { SixesOfEights(vs[0], vs[1], vs[2], vs[3]); }
      [vs[0], vs[1], vs[2], vs[3]] + rest;
      vs;
    }
  }

  lemma {:induction false} SextetsOfOctets(vs: seq<nat>)
    requires Whole(vs)
    ensures ReadsBack(vs)
  {
    assert |vs| != 1;
    if vs == [] {
    } else if |vs| == 2 {
      SextetsOfTwo(vs);
    } else if |vs| == 3 {
      SextetsOfThree(vs);
    } else {
      WholeRest(vs);
      SextetsOfOctets(vs[4..]);
      OneMoreGroup(vs);
    }
  }

  lemma LettersJoin(vs: seq<nat>, ws: seq<nat>)
    requires InBase64(vs) && InBase64(ws)
    ensures Letters(vs + ws) == Letters(vs) + Letters(ws)
  {
  }

  lemma LettersOfSixes(x: nat, y: nat, z: nat)
    requires x < 256 && y < 256 && z < 256
    ensures Letters(Sixes(x, y, z)) == Three(x, y, z / 64) + [Letter(z % 64)]
  {
  }

  lemma DataLettersOfGroup(b: seq<nat>)
    requires IsBytes(b) && |b| >= 3
    ensures DataLetters(b) == Three(b[0], b[1], b[2] / 64) + [Letter(b[2] % 64)] + DataLetters(b[3..])
  {
  }

  lemma SextetsStep(b: seq<nat>)
    requires IsBytes(b) && |b| >= 3
    ensures Sextets(b) == Sixes(b[0], b[1], b[2]) + Sextets(b[3..])
  {
  }

  lemma GroupAndRest(x: nat, y: nat, z: nat, vs: seq<nat>)
    requires x < 256 && y < 256 && z < 256 && InBase64(vs)
    ensures Three(x, y, z / 64) + [Letter(z % 64)] + Letters(vs) == Letters(Sixes(x, y, z) + vs)
  {
    LettersOfSixes(x, y, z);
    LettersJoin(Sixes(x, y, z), vs);
  }

  lemma LettersOfGroup(b: seq<nat>)
    requires IsBytes(b) && |b| >= 3 && DataLetters(b[3..]) == Letters(Sextets(b[3..]))
    ensures DataLetters(b) == Letters(Sextets(b))
  {
    DataLettersOfGroup(b);
    SextetsStep(b);
    GroupAndRest(b[0], b[1], b[2], Sextets(b[3..]));
  }

  lemma {:induction false} DataLettersAreSextets(b: seq<nat>)
    requires IsBytes(b)
    ensures DataLetters(b) == Letters(Sextets(b))
  {
    if |b| == 1 {
      LettersOfSixes(b[0], 0, 0);
    } else if |b| == 2 {
      LettersOfSixes(b[0], b[1], 0);
    } else if |b| >= 3 {
      DataLettersAreSextets(b[3..]);
      LettersOfGroup(b);
    }
  }

  lemma EncodingIsCanonical(b: seq<nat>)
    requires IsBytes(b)
    ensures Canonical(DataLetters(b))
  {
    var vs := Sextets(b);
    DataLettersAreSextets(b);
    forall i | 0 <= i < |vs| ensures UrlSafe(Letters(vs)[i]) { LetterIsUrlSafe(vs[i]); }
  }

  lemma CanonicalIsEncoding(s: string)
    requires Canonical(s)
    ensures Whole(Values64(s)) && DataLetters(Octets(Values64(s))) == s
  {
    var vs := Values64(s);
    SextetsOfOctets(vs);
    DataLettersAreSextets(Octets(vs));
    forall i | 0 <= i < |s| ensures Letters(vs)[i] == s[i] { LetterOfBits(s[i]); }
  }

  /** The bits not yet written fit what the open group leaves over. */
  predicate LeftFits(quad: nat, left: nat) {
    && (quad == 1 ==> left < 64) && (quad == 2 ==> left < 16) && (quad == 3 ==> left < 4)
  }

  lemma {:induction false} ScanGivesBytes(s: string, quad: nat, left: nat, pads: nat, out: seq<nat>)
    requires quad < 4 && LeftFits(quad, left) && IsBytes(out)
    ensures var r := Scan(s, quad, left, pads, out); r.Success? ==> IsBytes(r.value)
  {
    if s != "" {
      if s[0] == '=' {
        ScanGivesBytes(s[1..], quad, left, if quad >= 2 then pads + 1 else pads, out);
      } else if SixBits(s[0]).None? {
        ScanGivesBytes(s[1..], quad, left, pads, out);
      } else {
        var v := SixBits(s[0]).value;
        ScanGivesBytes(s[1..], (quad + 1) % 4, Carried(quad, v), 0, out + Written(quad, left, v));
      }
    }
  }

  /** Which text survives decoding and encoding: exactly the canonical one. Everything else that
      decodes (with foreign characters, '+' or '/', or stray bits in its last letter) is a second
      spelling of the same bytes. */
  lemma CanonicalExactly(s: string)
    ensures DecodeB64Url(s).Success? ==> IsBytes(DecodeB64Url(s).value)
    ensures DecodeB64Url(s).Success? && EncodeB64Url(DecodeB64Url(s).value) == s <==> Canonical(s)
  {
    ScanGivesBytes(s + Padding((0 - |s|) % 4), 0, 0, 0, []);
    if Canonical(s) {
      CanonicalIsEncoding(s);
      StrippedIsLetters(Octets(Values64(s)));
      RoundTrip(Octets(Values64(s)));
    }
    if DecodeB64Url(s).Success? && EncodeB64Url(DecodeB64Url(s).value) == s {
      StrippedIsLetters(DecodeB64Url(s).value);
      EncodingIsCanonical(DecodeB64Url(s).value);
    }
  }

  lemma StrippedIsLetters(b: seq<nat>)
    requires IsBytes(b)
    ensures EncodeB64Url(b) == DataLetters(b)
  {
    DataLettersUnpadded(b);
    StripUndoesPad(DataLetters(b), PadCount(b));
  }

  /** So among canonical texts decoding is injective. */
  lemma CanonicalTextIsUnique(s: string, t: string)
    requires Canonical(s) && Canonical(t) && DecodeB64Url(s) == DecodeB64Url(t)
    ensures s == t
  {
    CanonicalExactly(s);
    CanonicalExactly(t);
  }
}

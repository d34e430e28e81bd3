/** The base58-btc multibase decoder of `aap/did_web.py`, against the encoder of the Base58
    algorithms in draft-msporny-base58. */
module Base58 {
  import opened Values
  import opened Digits

  /** The alphabet leaves out 0, I, O and l. */
  const ALPHABET := "123456789" + "ABCDEFGH" + "JKLMN" + "PQRSTUVWXYZ" + "abcdefghijk" + "mnopqrstuvwxyz"

  // ---- the alphabet ----

  /** `str.index`: position of the first occurrence, or the length when there is none. */
  function IndexOf(s: string, c: char): (i: nat)
    ensures i <= |s| && (i < |s| ==> s[i] == c) && forall j :: 0 <= j < i ==> s[j] != c
  {
    if s == "" || s[0] == c then 0 else 1 + IndexOf(s[1..], c)
  }

  function Letter(i: nat): char
    requires i < 58
  {
    if i < 9 then '1' + i as char
    else if i < 17 then 'A' + (i - 9) as char
    else if i < 22 then 'J' + (i - 17) as char
    else if i < 33 then 'P' + (i - 22) as char
    else if i < 44 then 'a' + (i - 33) as char
    else 'm' + (i - 44) as char
  }

  lemma LetterAt(i: nat)
    requires i < 58
    ensures |ALPHABET| == 58 && ALPHABET[i] == Letter(i)
  {
  }

  /** The ASCII letters and digits except 0, I, O and l, in the order of their codes. */
  lemma AlphabetExactly()
    ensures |ALPHABET| == 58
    ensures forall i, j :: 0 <= i < j < |ALPHABET| ==> ALPHABET[i] < ALPHABET[j]
    ensures forall c :: c in ALPHABET
              <==> ('0' <= c <= '9' || 'A' <= c <= 'Z' || 'a' <= c <= 'z') && c !in {'0', 'I', 'O', 'l'}
  {
    LetterAt(0);
    forall i: nat | i < 58 ensures ALPHABET[i] == Letter(i) { LetterAt(i); }
    forall c: char | ('0' <= c <= '9' || 'A' <= c <= 'Z' || 'a' <= c <= 'z') && c !in {'0', 'I', 'O', 'l'}
      ensures c in ALPHABET
    {
      var i := if c <= '9' then (c - '1') as int
               else if c <= 'H' then 9 + (c - 'A') as int
               else if c <= 'N' then 17 + (c - 'J') as int
               else if c <= 'Z' then 22 + (c - 'P') as int
               else if c <= 'k' then 33 + (c - 'a') as int
               else 44 + (c - 'm') as int;
      assert ALPHABET[i] == Letter(i) == c;
    }
  }

  function Index(c: char): (i: nat)
    ensures i <= 58
  {
    assert |ALPHABET| == 58;
    IndexOf(ALPHABET, c)
  }

  lemma IndexOfLetter(i: nat)
    requires i < 58
    ensures Index(Letter(i)) == i
  {
    LetterAt(i);
    LetterAt(Index(Letter(i)));
  }

  lemma LetterOfIndex(c: char)
    requires Index(c) < 58
    ensures Letter(Index(c)) == c
  {
    LetterAt(Index(c));
  }

  lemma LettersAreIndexed()
    ensures forall i: nat :: i < 58 ==> Index(Letter(i)) == i
  {
    forall i: nat | i < 58 ensures Index(Letter(i)) == i { IndexOfLetter(i); }
  }

  predicate IsBase58(s: string) {
    forall i :: 0 <= i < |s| ==> Index(s[i]) < 58
  }

  function DigitsOf(s: string): (ds: seq<nat>)
    requires IsBase58(s)
    ensures |ds| == |s| && InBase(58, ds)
  {
    seq(|s|, i requires 0 <= i < |s| => Index(s[i]))
  }

  function Letters(ds: seq<nat>): (s: string)
    requires InBase(58, ds)
    ensures |s| == |ds| && IsBase58(s)
  {
    LettersAreIndexed();
    seq(|ds|, i requires 0 <= i < |ds| => Letter(ds[i]))
  }

  lemma LettersOfDigits(s: string)
    requires IsBase58(s)
    ensures Letters(DigitsOf(s)) == s
  {
    forall i | 0 <= i < |s| ensures Letters(DigitsOf(s))[i] == s[i] {
      LetterOfIndex(s[i]);
    }
  }

  lemma DigitsOfLetters(ds: seq<nat>)
    requires InBase(58, ds)
    ensures DigitsOf(Letters(ds)) == ds
  {
    forall i | 0 <= i < |ds| ensures DigitsOf(Letters(ds))[i] == ds[i] {
      IndexOfLetter(ds[i]);
    }
  }

  // ---- the reference encoder and the decoder's meaning ----

  ghost predicate IsBytes(b: seq<nat>) {
    InBase(256, b)
  }

  /** Base58 encoding under the multibase prefix: every leading zero byte becomes a '1', the rest is
      the big-endian number written in base 58. */
  function Encode(b: seq<nat>): string {
    "z" + Letters(Recode(256, 58, b))
  }

  predicate IsMultibase58(value: string) {
    value != "" && value[0] == 'z' && IsBase58(value[1..])
  }

  function Decoded(value: string): (b: seq<nat>)
    requires IsMultibase58(value)
    ensures IsBytes(b)
  {
    Recode(58, 256, DigitsOf(value[1..]))
  }

  lemma DecodeAfterEncode(b: seq<nat>)
    requires IsBytes(b)
    ensures IsMultibase58(Encode(b)) && Decoded(Encode(b)) == b
  {
    assert Encode(b)[1..] == Letters(Recode(256, 58, b));
    DigitsOfLetters(Recode(256, 58, b));
    RecodeBack(256, 58, b);
  }

  lemma EncodeAfterDecode(value: string)
    requires IsMultibase58(value)
    ensures Encode(Decoded(value)) == value
  {
    var encoded := value[1..];
    var ds := DigitsOf(encoded);
    calc {
      Encode(Decoded(value));
      "z" + Letters(Recode(256, 58, Recode(58, 256, ds)));
      { RecodeBack(58, 256, ds); }
      "z" + Letters(ds);
      { LettersOfDigits(encoded); }
      "z" + encoded;
      value;
    }
  }

  // ---- Python's integer and string primitives ----

  /** `int.bit_length`. */
  function BitLength(n: nat): nat {
    if n == 0 then 0 else 1 + BitLength(n / 2)
  }

  /** `n.to_bytes(length, "big")`, for a number that fits. */
  function ToBytes(n: nat, length: nat): seq<nat> {
    if length == 0 then [] else ToBytes(n / 256, length - 1) + [n % 256]
  }

  lemma BitLengthOfQuotient(n: nat)
    ensures n >= 256 ==> BitLength(n) == 8 + BitLength(n / 256)
    ensures 0 < n < 256 ==> 1 <= BitLength(n) <= 8
  {
    var a := n / 2; var b := a / 2; var c := b / 2; var d := c / 2;
    var e := d / 2; var f := e / 2; var g := f / 2; var h := g / 2;
    assert h == n / 256;
    assert BitLength(n) == (if n == 0 then 0 else 1 + BitLength(a));
    assert BitLength(b) == (if b == 0 then 0 else 1 + BitLength(c));
    assert BitLength(d) == (if d == 0 then 0 else 1 + BitLength(e));
    assert BitLength(f) == (if f == 0 then 0 else 1 + BitLength(g));
  }

  /** `(n.bit_length() + 7) // 8` bytes are just enough: they hold the number, without a leading zero. */
  lemma {:induction false} BytesAreMinimal(n: nat)
    ensures ToBytes(n, (BitLength(n) + 7) / 8) == ToDigits(256, n)
  {
    BitLengthOfQuotient(n);
    if n >= 256 {
      BytesAreMinimal(n / 256);
      assert (BitLength(n) + 7) / 8 == 1 + (BitLength(n / 256) + 7) / 8;
    } else if n > 0 {
      assert (BitLength(n) + 7) / 8 == 1;
      assert ToBytes(n / 256, 0) == [] == ToDigits(256, n / 256);
    }
  }

  /** `s.lstrip("1")`. */
  function StripOnes(s: string): (r: string)
    ensures |r| <= |s|
  {
    if s == "" || s[0] != '1' then s else StripOnes(s[1..])
  }

  lemma {:induction false} OnesAreZeroDigits(s: string)
    requires IsBase58(s)
    ensures |s| - |StripOnes(s)| == LeadingZeros(DigitsOf(s))
  {
    if s != "" {
      assert DigitsOf(s)[1..] == DigitsOf(s[1..]);
      IndexOfLetter(0);
      if Index(s[0]) == 0 { LetterOfIndex(s[0]); }
      OnesAreZeroDigits(s[1..]);
    }
  }

  // ---- the decoder ----

  lemma OneMoreLetter(s: string, i: nat)
    requires i < |s| && IsBase58(s[..i]) && Index(s[i]) < 58
    ensures IsBase58(s[..i + 1])
    ensures FromDigits(58, DigitsOf(s[..i + 1])) == FromDigits(58, DigitsOf(s[..i])) * 58 + Index(s[i])
  {
    var before, after := s[..i], s[..i + 1];
    assert after == before + [s[i]];
    assert DigitsOf(after) == DigitsOf(before) + [Index(s[i])];
    FromDigitsAppend(58, DigitsOf(before), Index(s[i]));
  }

  /** The loop of `_decode_base58btc`: the big-endian value of the letters, unless one is foreign. */
  method ReadNumber(encoded: string) returns (r: Result<nat>)
    ensures r.Success? <==> IsBase58(encoded)
    ensures r.Success? ==> r.value == FromDigits(58, DigitsOf(encoded))
  {
    var number: nat := 0;
    for i := 0 to |encoded|
      invariant IsBase58(encoded[..i])
      invariant number == FromDigits(58, DigitsOf(encoded[..i]))
    {
      var index := Index(encoded[i]);
      if index == 58 { return Failure("publicKeyMultibase contains an invalid base58 character"); }
      OneMoreLetter(encoded, i);
      number := number * 58 + index;
    }
    assert encoded[..|encoded|] == encoded;
    return Success(number);
  }

  /** Counting the leading '1's and writing the number in just enough bytes is recoding to base 256. */
  lemma Assembled(encoded: string, number: nat)
    requires IsBase58(encoded) && number == FromDigits(58, DigitsOf(encoded))
    ensures Recode(58, 256, DigitsOf(encoded))
         == Zeros(|encoded| - |StripOnes(encoded)|)
            + if number != 0 then ToBytes(number, (BitLength(number) + 7) / 8) else []
  {
    BytesAreMinimal(number);
    OnesAreZeroDigits(encoded);
  }

  /** `_decode_base58btc`. */
  method DecodeBase58btc(value: string) returns (r: Result<seq<nat>>)
    ensures r.Success? <==> IsMultibase58(value)
    ensures r.Success? ==> r.value == Decoded(value)
  {
    if value == "" || value[0] != 'z' { return Failure("publicKeyMultibase must use base58-btc"); }
    var encoded := value[1..];
    var read := ReadNumber(encoded);
    if read.Failure? { return Failure(read.error); }
    var number := read.value;
    var decoded := if number != 0 then ToBytes(number, (BitLength(number) + 7) / 8) else [];
    var leadingZeroes := |encoded| - |StripOnes(encoded)|;
    Assembled(encoded, number);
    return Success(Zeros(leadingZeroes) + decoded);
  }
}

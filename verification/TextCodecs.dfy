/**
 * The codecs on text: base32 for authenticator apps, base64url as the phone writes it, and
 * base64 as the phone reads it (RFC 4648, sections 4 to 6, without padding).
 */
module TextCodecs {
  import opened BitCodec

  // ---------------------------------------------------------------- alphabets

  predicate In32(c: char) {
    'A' <= c <= 'Z' || '2' <= c <= '7'
  }

  function Char32(d: nat): (c: char)
    requires d < 32
    ensures In32(c) && Index32(c) == d
  {
    if d < 26 then 'A' + d as char else '2' + (d - 26) as char
  }

  function Index32(c: char): (d: nat)
    requires In32(c)
    ensures d < 32
  {
    if 'A' <= c <= 'Z' then (c - 'A') as nat else 26 + (c - '2') as nat
  }

  predicate In64(c: char) {
    'A' <= c <= 'Z' || 'a' <= c <= 'z' || '0' <= c <= '9' || c == '+' || c == '/'
  }

  function Index64(c: char): (d: nat)
    requires In64(c)
    ensures d < 64
  {
    if 'A' <= c <= 'Z' then (c - 'A') as nat
    else if 'a' <= c <= 'z' then 26 + (c - 'a') as nat
    else if '0' <= c <= '9' then 52 + (c - '0') as nat
    else if c == '+' then 62 else 63
  }

  /** The alphabet for addresses and file names: `-` and `_` for the last two digits. */
  function CharUrl(d: nat): (c: char)
    requires d < 64
    ensures In64(FromUrl(c)) && Index64(FromUrl(c)) == d && c != '+' && c != '/' && c != '='
  {
    if d < 26 then 'A' + d as char
    else if d < 52 then 'a' + (d - 26) as char
    else if d < 62 then '0' + (d - 52) as char
    else if d == 62 then '-' else '_'
  }

  const CAPITALS := "ABCDEFGHIJKLMNOPQRSTUVWXYZ"
  const SMALL := "abcdefghijklmnopqrstuvwxyz"
  const DIGITS := "0123456789"

  lemma InOrder(i: nat)
    ensures |CAPITALS| == |SMALL| == 26 && |DIGITS| == 10
    ensures i < 26 ==> CAPITALS[i] == 'A' + i as char && SMALL[i] == 'a' + i as char
    ensures i < 10 ==> DIGITS[i] == '0' + i as char
  {
  }

  /** The alphabets are those of RFC 4648, tables 3, 1 and 2. */
  lemma Alphabets(d: nat)
    ensures d < 32 ==> (CAPITALS + DIGITS[2..8])[d] == Char32(d)
    ensures d < 32 ==> In32(Char32(d)) && Index32(Char32(d)) == d
    ensures d < 64 ==> (CAPITALS + SMALL + DIGITS + "-_")[d] == CharUrl(d)
    ensures d < 64 ==> (CAPITALS + SMALL + DIGITS + "+/")[d] == FromUrl(CharUrl(d))
    ensures d < 64 ==> In64(FromUrl(CharUrl(d))) && Index64(FromUrl(CharUrl(d))) == d
  {
    InOrder(d);
    if 26 <= d { InOrder(d - 26); InOrder(d - 24); }
    if 52 <= d { InOrder(d - 52); }
  }

  function FromUrl(c: char): char {
    if c == '-' then '+' else if c == '_' then '/' else c
  }

  /** The characters outside ASCII that have ASCII letters in their upper case (Unicode's SpecialCasing). */
  const FOREIGN: map<char, string> := map[
    '\U{00DF}' := "SS", '\U{0131}' := "I", '\U{0149}' := "\U{02BC}N", '\U{017F}' := "S",
    '\U{01F0}' := "J\U{030C}", '\U{1E96}' := "H\U{0331}", '\U{1E97}' := "T\U{0308}",
    '\U{1E98}' := "W\U{030A}", '\U{1E99}' := "Y\U{030A}", '\U{1E9A}' := "A\U{02BE}",
    '\U{FB00}' := "FF", '\U{FB01}' := "FI", '\U{FB02}' := "FL", '\U{FB03}' := "FFI",
    '\U{FB04}' := "FFL", '\U{FB05}' := "ST", '\U{FB06}' := "ST"]

  /** The upper case of a character, as far as ASCII: every other one stays outside ASCII, and is left as it is. */
  function Upper(c: char): string {
    if 'a' <= c <= 'z' then ['A' + (c - 'a')] else if c in FOREIGN then FOREIGN[c] else [c]
  }

  function UpperCase(s: string): string {
    if s == "" then "" else Upper(s[0]) + UpperCase(s[1..])
  }

  /** The digits of a text; anything else is dropped. */
  function Only32(s: string): (r: string)
    ensures forall c <- r :: In32(c)
  {
    if s == "" then "" else (if In32(s[0]) then [s[0]] else []) + Only32(s[1..])
  }

  /** What the base32 decoder looks at. */
  function Clean32(s: string): (r: string)
    ensures forall c <- r :: In32(c)
  {
    Only32(UpperCase(s))
  }

  /** Small letters become capitals, and capitals and digits stay. */
  lemma AsciiCases(i: nat)
    ensures i < 26 ==> Upper(SMALL[i]) == [CAPITALS[i]] && Upper(CAPITALS[i]) == [CAPITALS[i]]
    ensures i < 10 ==> Upper(DIGITS[i]) == [DIGITS[i]]
  {
    InOrder(i);
    if i < 26 {
      SmallAndCapital('A' + i as char);
      assert 'A' + (SMALL[i] - 'a') == CAPITALS[i];
    }
    if i < 10 { SmallAndCapital(DIGITS[i]); }
  }

  lemma SmallAndCapital(c: char)
    ensures c < '\U{0080}' && !('a' <= c <= 'z') ==> Upper(c) == [c]
  {
  }

  /** What an authenticator secret typed with one of these characters is read as. */
  lemma ForeignCases()
    ensures Upper('\U{00DF}') == "SS" && Upper('\U{0131}') == "I" && Upper('\U{017F}') == "S"
    ensures Upper('\U{0149}')[1..] == "N" && Upper('\U{01F0}')[..1] == "J"
    ensures Upper('\U{1E96}')[..1] == "H" && Upper('\U{1E97}')[..1] == "T" && Upper('\U{1E98}')[..1] == "W"
    ensures Upper('\U{1E99}')[..1] == "Y" && Upper('\U{1E9A}')[..1] == "A"
    ensures Upper('\U{FB00}') == "FF" && Upper('\U{FB01}') == "FI" && Upper('\U{FB02}') == "FL"
    ensures Upper('\U{FB03}') == "FFI" && Upper('\U{FB04}') == "FFL"
    ensures Upper('\U{FB05}') == "ST" && Upper('\U{FB06}') == "ST"
  {
  }

  /** The text without the spaces and hyphens of its groups. */
  function Ungrouped(s: string): string {
    if s == "" then "" else (if s[0] == ' ' || s[0] == '-' then [] else [s[0]]) + Ungrouped(s[1..])
  }

  function Clean64(s: string): (r: string)
    ensures forall c <- r :: In64(c)
  {
    if s == "" then "" else (if In64(s[0]) then [s[0]] else []) + Clean64(s[1..])
  }

  function Digits32(s: string): (d: seq<nat>)
    requires forall c <- s :: In32(c)
    ensures |d| == |s|
  {
    seq(|s|, i requires 0 <= i < |s| => assert s[i] in s; Index32(s[i]))
  }

  function Digits64(s: string): (d: seq<nat>)
    requires forall c <- s :: In64(c)
    ensures |d| == |s|
  {
    seq(|s|, i requires 0 <= i < |s| => assert s[i] in s; Index64(s[i]))
  }

  function MapUrl(s: string): (r: string)
    ensures |r| == |s|
  {
    seq(|s|, i requires 0 <= i < |s| => FromUrl(s[i]))
  }

  lemma FiveAndSix()
    ensures Pow2(5) == 32 && Pow2(6) == 64
  {
    assert Pow2(3) == 8;
  }

  lemma {:induction false} DigitsStay(s: string)
    requires forall c <- s :: In32(c)
    ensures Only32(s) == s && UpperCase(s) == s
  {
    hide Upper, FOREIGN;
    if s != "" {
      assert s[0] in s && s == [s[0]] + s[1..];
      SmallAndCapital(s[0]);
      DigitsStay(s[1..]);
    }
  }

  lemma {:induction false} UngroupedHasTheDigits(s: string)
    ensures Only32(Ungrouped(s)) == Only32(s)
  {
    if s != "" {
      UngroupedHasTheDigits(s[1..]);
      if s[0] != ' ' && s[0] != '-' {
        assert Ungrouped(s) == [s[0]] + Ungrouped(s[1..]);
        assert Ungrouped(s)[1..] == Ungrouped(s[1..]);
      } else {
        assert Ungrouped(s) == Ungrouped(s[1..]);
      }
    }
  }

  lemma {:induction false} CleanIsClean64(s: string)
    requires forall c <- s :: In64(c)
    ensures Clean64(s) == s
  {
    if s != "" {
      assert s[0] in s && s == [s[0]] + s[1..];
      CleanIsClean64(s[1..]);
    }
  }

  // ---------------------------------------------------------------- the codecs

  method Base32Encode(bytes: seq<nat>) returns (s: string)
    requires Below(bytes, 8)
    ensures (forall c <- s :: In32(c)) && Encodes(5, bytes, Digits32(s))
  {
    hide Encodes;
    var digits := Regroup(bytes, 5);
    FiveAndSix();
    EncodedBelow(5, bytes, digits);
    DigitsBelow(digits, 5, 32);
    s := seq(|digits|, i requires 0 <= i < |digits| => Char32(digits[i]));
    assert Digits32(s) == digits;
  }

  lemma EncodedBelow(k: nat, bytes: seq<nat>, digits: seq<nat>)
    requires Encodes(k, bytes, digits)
    ensures Below(digits, k)
  {
  }

  lemma DigitsBelow(digits: seq<nat>, k: nat, n: nat)
    requires Below(digits, k) && Pow2(k) == n
    ensures forall i :: 0 <= i < |digits| ==> digits[i] < n
  {
    assert forall i :: 0 <= i < |digits| ==> digits[i] in digits;
  }

  method Base32Decode(s: string) returns (bytes: seq<nat>)
    ensures Decodes(5, Digits32(Clean32(s)), bytes)
  {
    hide Decodes;
    var digits := Digits32(Clean32(s));
    FiveAndSix();
    assert Below(digits, 5);
    bytes := Ungroup(digits, 5);
  }

  /** `base32Decode(base32Encode(b)) == b`, for every byte string. */
  method Base32BothWays(bytes: seq<nat>) returns (back: seq<nat>)
    requires Below(bytes, 8)
    ensures back == bytes
  {
    hide Encodes, Decodes;
    var s := Base32Encode(bytes);
    DigitsStay(s);
    back := Base32Decode(s);
    RoundTrip(5, bytes, Digits32(s), back);
  }

  /** The phone's `base64url`. */
  method Base64Url(bytes: seq<nat>) returns (s: string)
    requires Below(bytes, 8)
    ensures forall c <- s :: c != '+' && c != '/' && c != '='
    ensures (forall c <- MapUrl(s) :: In64(c)) && Encodes(6, bytes, Digits64(MapUrl(s)))
  {
    hide Encodes;
    var digits := Regroup(bytes, 6);
    FiveAndSix();
    EncodedBelow(6, bytes, digits);
    DigitsBelow(digits, 6, 64);
    s := seq(|digits|, i requires 0 <= i < |digits| => CharUrl(digits[i]));
    assert Digits64(MapUrl(s)) == digits;
  }

  /** The phone's `base64ToBytes`; its buffer always has room (see `Ungroup`). */
  method Base64ToBytes(s: string) returns (bytes: seq<nat>)
    ensures Decodes(6, Digits64(Clean64(s)), bytes)
  {
    hide Decodes;
    var digits := Digits64(Clean64(s));
    FiveAndSix();
    assert Below(digits, 6);
    bytes := Ungroup(digits, 6);
  }

  /** What `base64url` writes, `base64ToBytes` reads back once `-` and `_` are the standard digits. */
  method Base64BothWays(bytes: seq<nat>) returns (back: seq<nat>)
    requires Below(bytes, 8)
    ensures back == bytes
  {
    hide Encodes, Decodes;
    var s := Base64Url(bytes);
    CleanIsClean64(MapUrl(s));
    back := Base64ToBytes(MapUrl(s));
    RoundTrip(6, bytes, Digits64(MapUrl(s)), back);
  }

  /** Nothing but the digits matters: the bits left over at the end of both are the same. */
  lemma SameDigitsSameBytes(k: nat, digits: seq<nat>, a: seq<nat>, b: seq<nat>)
    requires 0 < k <= 8 && Decodes(k, digits, a) && Decodes(k, digits, b)
    ensures a == b
  {
    var x: seq<nat> :| |x| < 8 && Bits(digits, k) == Bits(a, 8) + x;
    var y: seq<nat> :| |y| < 8 && Bits(digits, k) == Bits(b, 8) + y;
    BitsLength(a, 8);
    BitsLength(b, 8);
    assert |a| == |b|;
    assert Bits(a, 8) == Bits(digits, k)[..|a| * 8] == Bits(b, 8);
    SameRows(a, b, 8);
  }

  /** Two texts that differ in case and in spaces and hyphens only are decoded to the same bytes. */
  lemma CaseAndGroupsDoNotMatter(s: string, t: string, a: seq<nat>, b: seq<nat>)
    requires Ungrouped(UpperCase(s)) == Ungrouped(UpperCase(t))
    requires Decodes(5, Digits32(Clean32(s)), a) && Decodes(5, Digits32(Clean32(t)), b)
    ensures a == b
  {
    hide Decodes, Only32, UpperCase, Ungrouped, Digits32;
    UngroupedHasTheDigits(UpperCase(s));
    UngroupedHasTheDigits(UpperCase(t));
    SameDigitsSameBytes(5, Digits32(Clean32(s)), a, b);
  }

  /** A secret typed in any case, in any groups, is read as the bytes that were encoded. */
  lemma TypedReadsBack(bytes: seq<nat>, s: string, typed: string, back: seq<nat>)
    requires Below(bytes, 8) && (forall c <- s :: In32(c)) && Encodes(5, bytes, Digits32(s))
    requires Ungrouped(UpperCase(typed)) == s && Decodes(5, Digits32(Clean32(typed)), back)
    ensures back == bytes
  {
    hide Encodes, Decodes, UpperCase, Ungrouped, Digits32;
    UngroupedHasTheDigits(UpperCase(typed));
    DigitsStay(s);
    hide Only32;
    RoundTrip(5, bytes, Digits32(s), back);
  }
}

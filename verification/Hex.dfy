/** Lower-case hexadecimal text (crates/cosaci-state/src/tenant.rs, bins/cosaci-coordinator/src/main.rs). */
module Hex {
  import opened Machine

  function Digit(n: nat): char
    requires n < 16
  {
    "0123456789abcdef"[n]
  }

  /** `hex_nibble`: upper-case digits are not accepted. */
  function Nibble(c: char): Option<nat> {
    if '0' <= c <= '9' then Some(c as int - '0' as int)
    else if 'a' <= c <= 'f' then Some(c as int - 'a' as int + 10)
    else None
  }

  lemma NibbleOfDigit(n: nat)
    requires n < 16
    ensures Nibble(Digit(n)) == Some(n)
  {
  }

  lemma DigitOfNibble(c: char)
    ensures Nibble(c).Some? ==> Nibble(c).value < 16 && Digit(Nibble(c).value) == c
  {
  }

  function ToHex(bytes: seq<u8>): (s: string)
    ensures |s| == 2 * |bytes|
  {
    if bytes == [] then ""
    else ToHex(bytes[..|bytes| - 1]) + [Digit(bytes[|bytes| - 1] / 16), Digit(bytes[|bytes| - 1] % 16)]
  }

  /** Byte `i` is printed at `2 * i`, high half first. */
  lemma {:induction false} HexAt(bytes: seq<u8>, i: nat)
    requires i < |bytes|
    ensures ToHex(bytes)[2 * i] == Digit(bytes[i] / 16) && ToHex(bytes)[2 * i + 1] == Digit(bytes[i] % 16)
  {
    hide Digit;
    var n := |bytes| - 1;
    if i == n {
    } else {
      HexAt(bytes[..n], i);
    }
  }

  /** Known answers with every digit once. */
  lemma KnownHex()
    ensures ToHex([0x01, 0x23, 0x45, 0x67]) == "01234567" && ToHex([0x89, 0xab, 0xcd, 0xef]) == "89abcdef"
  {
    hide ToHex;
    FourBytes(0x01, 0x23, 0x45, 0x67);
    FourBytes(0x89, 0xab, 0xcd, 0xef);
  }

  lemma FourBytes(a: u8, b: u8, c: u8, d: u8)
    ensures ToHex([a, b, c, d]) ==
            [Digit(a / 16), Digit(a % 16), Digit(b / 16), Digit(b % 16),
             Digit(c / 16), Digit(c % 16), Digit(d / 16), Digit(d % 16)]
  {
    hide Digit;
    var bytes := [a, b, c, d];
    assert bytes[..3] == [a, b, c] && [a, b, c][..2] == [a, b] && [a, b][..1] == [a] && [a][..0] == [];
    assert ToHex([a, b]) == [Digit(a / 16), Digit(a % 16), Digit(b / 16), Digit(b % 16)];
  }

  function ByteOf(hi: char, lo: char): Option<u8> {
    if Nibble(hi).None? || Nibble(lo).None? then None
    else
      DigitOfNibble(hi);
      DigitOfNibble(lo);
      Some(16 * Nibble(hi).value + Nibble(lo).value)
  }

  function FromHex(s: string): Option<seq<u8>> {
    if s == "" then Some([])
    else if |s| < 2 then None
    else
      var front := FromHex(s[..|s| - 2]);
      var last := ByteOf(s[|s| - 2], s[|s| - 1]);
      if front.None? || last.None? then None else Some(front.value + [last.value])
  }

  lemma ByteRoundTrip(b: u8)
    ensures ByteOf(Digit(b / 16), Digit(b % 16)) == Some(b)
  {
    NibbleOfDigit(b / 16);
    NibbleOfDigit(b % 16);
  }

  /** Decoding undoes encoding. */
  lemma {:induction false} FromToHex(bytes: seq<u8>)
    ensures FromHex(ToHex(bytes)) == Some(bytes)
  {
    if bytes == [] {
    } else {
      var n := |bytes| - 1;
      var s := ToHex(bytes);
      hide ByteOf, Digit, FromHex;
      assert s[..|s| - 2] == ToHex(bytes[..n]);
      assert bytes == bytes[..n] + [bytes[n]];
      FromToHex(bytes[..n]);
      ByteRoundTrip(bytes[n]);
      FromHexStep(s);
    }
  }

  lemma FromHexStep(s: string)
    requires |s| >= 2
    ensures var front, last := FromHex(s[..|s| - 2]), ByteOf(s[|s| - 2], s[|s| - 1]);
            FromHex(s) == if front.None? || last.None? then None else Some(front.value + [last.value])
  {
    hide ByteOf;
  }

  lemma ByteBack(hi: char, lo: char)
    requires ByteOf(hi, lo).Some?
    ensures var b := ByteOf(hi, lo).value;
            Digit(b / 16) == hi && Digit(b % 16) == lo
  {
    DigitOfNibble(hi);
    DigitOfNibble(lo);
    var b := ByteOf(hi, lo).value;
    assert b / 16 == Nibble(hi).value && b % 16 == Nibble(lo).value;
  }

  /** Encoding undoes decoding: every accepted text is the canonical one. */
  lemma {:induction false} ToFromHex(s: string)
    requires FromHex(s).Some?
    ensures ToHex(FromHex(s).value) == s
  {
    if s == "" {
    } else {
      hide ByteOf, Digit;
      var n := |s| - 2;
      ToFromHex(s[..n]);
      ByteBack(s[n], s[n + 1]);
      var bytes := FromHex(s).value;
      assert bytes[..|bytes| - 1] == FromHex(s[..n]).value;
      assert s == s[..n] + [s[n], s[n + 1]];
    }
  }

  function ParseHex32(s: string): Option<seq<u8>> {
    if |s| != 64 then None else FromHex(s)
  }

  /** Exactly the lower-case texts of 32 bytes are accepted. */
  lemma HexIff(s: string, bytes: seq<u8>)
    ensures ParseHex32(s) == Some(bytes) <==> |bytes| == 32 && s == ToHex(bytes)
  {
    hide FromHex, ToHex;
    if ParseHex32(s) == Some(bytes) {
      ToFromHex(s);
    } else if |bytes| == 32 && s == ToHex(bytes) {
      FromToHex(bytes);
    }
  }

  /** `parse_hex32`, filling its array two digits at a time. */
  method ReadHex32(s: string) returns (r: Option<seq<u8>>)
    ensures r == ParseHex32(s)
  {
    if |s| != 64 {
      return None;
    }
    var out: seq<u8> := [];
    for i := 0 to 32
      invariant FromHex(s[..2 * i]) == Some(out)
    {
      hide FromHex;
      PrefixStep(s, i);
      var b := ByteOf(s[2 * i], s[2 * i + 1]);
      if b.None? {
        BadPrefix(s, 2 * (i + 1));
        return None;
      }
      out := out + [b.value];
    }
    assert s[..64] == s;
    return Some(out);
  }

  lemma PrefixStep(s: string, i: nat)
    requires 2 * (i + 1) <= |s|
    ensures var front, last := FromHex(s[..2 * i]), ByteOf(s[2 * i], s[2 * i + 1]);
            FromHex(s[..2 * (i + 1)]) ==
            if front.None? || last.None? then None else Some(front.value + [last.value])
  {
    assert s[..2 * (i + 1)][..2 * i] == s[..2 * i];
  }

  lemma {:induction false} BadPrefix(s: string, n: nat)
    requires n <= |s| && (|s| - n) % 2 == 0 && FromHex(s[..n]).None?
    ensures FromHex(s).None?
    decreases |s| - n
  {
    if n == |s| {
      assert s[..n] == s;
    } else {
      assert s[..n + 2][..n] == s[..n];
      BadPrefix(s, n + 2);
    }
  }
}

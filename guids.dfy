/** `System.Guid` as the core uses it: a 128-bit identifier, its text form
    (`Guid.ToString()`, 32 lower-case hexadecimal digits in groups 8-4-4-4-12 separated by
    hyphens) and `Guid.TryParse` for that form. The value of a Guid is the number its 32 digits
    spell, read in the order they are written.
 */
module Guids {
  import opened Base

  function Pow16(k: nat): (r: nat)
    ensures r >= 1
  {
    if k == 0 then 1 else 16 * Pow16(k - 1)
  }

  /** 16^32 = 2^128. */
  const GuidBound: nat := Pow16(32)

  type Guid = n: nat | n < GuidBound

  /** `Guid.Empty`. */
  const Empty: Guid := 0

  // ---------------------------------------------------------------------------------------
  // Hexadecimal digits

  function HexDigit(d: nat): char
    requires d < 16
  {
    if d < 10 then ('0' as int + d) as char else ('a' as int + d - 10) as char
  }

  /** The value of a hexadecimal digit of either case. */
  function HexDigitValue(c: char): Option<nat> {
    if '0' <= c <= '9' then Some(c as int - '0' as int)
    else if 'a' <= c <= 'f' then Some(c as int - 'a' as int + 10)
    else if 'A' <= c <= 'F' then Some(c as int - 'A' as int + 10)
    else None
  }

  /** `n` written with exactly `width` hexadecimal digits, most significant first. */
  function Hex(n: nat, width: nat): (s: string)
    ensures |s| == width
    ensures forall i :: 0 <= i < width ==> HexDigitValue(s[i]).Some?
  {
    if width == 0 then [] else Hex(n / 16, width - 1) + [HexDigit(n % 16)]
  }

  /** The number a string of hexadecimal digits spells, or None when some character is not
      a hexadecimal digit. */
  function HexNumber(s: string): (r: Option<nat>)
    ensures r.Some? ==> r.value < Pow16(|s|)
  {
    if s == [] then Some(0)
    else
      match (HexNumber(s[..|s| - 1]), HexDigitValue(s[|s| - 1]))
      case (Some(high), Some(d)) =>
        assert d < 16;
        Some(high * 16 + d)
      case _ => None
  }

  lemma {:induction false} HexRoundTrip(n: nat, width: nat)
    requires n < Pow16(width)
    ensures HexNumber(Hex(n, width)) == Some(n)
  {
    if width > 0 {
      var s := Hex(n, width);
      assert s[..|s| - 1] == Hex(n / 16, width - 1);
      HexRoundTrip(n / 16, width - 1);
    }
  }

  // ---------------------------------------------------------------------------------------
  // The hyphenated text form

  function Hyphenate(h: string): (s: string)
    requires |h| == 32
    ensures |s| == 36
  {
    h[..8] + "-" + h[8..12] + "-" + h[12..16] + "-" + h[16..20] + "-" + h[20..]
  }

  function Dehyphenate(s: string): (h: string)
    requires |s| == 36
    ensures |h| == 32
  {
    s[..8] + s[9..13] + s[14..18] + s[19..23] + s[24..]
  }

  predicate HasHyphens(s: string) {
    |s| == 36 && s[8] == '-' && s[13] == '-' && s[18] == '-' && s[23] == '-'
  }

  /** `g.ToString()`. */
  function ToString(g: Guid): string {
    Hyphenate(Hex(g, 32))
  }

  /** `Guid.TryParse(s, out g)` for the hyphenated 36-character form: hyphens at positions
      8, 13, 18 and 23 and hexadecimal digits of either case everywhere else. */
  function TryParse(s: string): Option<Guid> {
    if !HasHyphens(s) then None
    else
      match HexNumber(Dehyphenate(s))
      case Some(v) => Some(v)
      case None => None
  }

  lemma HyphenateInverse(h: string)
    requires |h| == 32
    ensures HasHyphens(Hyphenate(h))
    ensures Dehyphenate(Hyphenate(h)) == h
  {
    var s := Hyphenate(h);
    assert s[..8] == h[..8];
    assert s[9..13] == h[8..12];
    assert s[14..18] == h[12..16];
    assert s[19..23] == h[16..20];
    assert s[24..] == h[20..];
    assert h == h[..8] + h[8..12] + h[12..16] + h[16..20] + h[20..];
  }

  /** Parsing the text form of a Guid gives back the Guid. */
  lemma ParseToString(g: Guid)
    ensures TryParse(ToString(g)) == Some(g)
  {
    HyphenateInverse(Hex(g, 32));
    HexRoundTrip(g, 32);
  }

  /** Distinct Guids have distinct text forms. */
  lemma ToStringInjective(g: Guid, h: Guid)
    requires ToString(g) == ToString(h)
    ensures g == h
  {
    ParseToString(g);
    ParseToString(h);
  }
}

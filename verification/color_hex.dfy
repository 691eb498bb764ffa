/**
 How colours are written to the preferences file: '#' followed by the red,
 green and blue channels, each as `Integer.toHexString` writes it, that is in
 lower-case hexadecimal without leading zeros.
 */
module ColorHex {

  /** A colour's three channels, each between 0 and 255. */
  datatype Color = Color(red: int, green: int, blue: int)

  predicate IsChannel(n: int) { 0 <= n < 256 }

  predicate ValidColor(c: Color)
  {
    IsChannel(c.red) && IsChannel(c.green) && IsChannel(c.blue)
  }

  const Digits: string := "0123456789abcdef"

  predicate IsHexDigit(ch: char) { ch in Digits }

  /** The value of a lower-case hexadecimal digit. */
  function DigitValue(ch: char): (v: int)
    requires IsHexDigit(ch)
    ensures 0 <= v < 16 && Digits[v] == ch
  {
    if '0' <= ch <= '9' then ch as int - '0' as int else ch as int - 'a' as int + 10
  }

  /** `Integer.toHexString(n)` for a non-negative `n`. */
  function ToHex(n: nat): (r: string)
    ensures r != [] && forall k :: 0 <= k < |r| ==> IsHexDigit(r[k])
    ensures n > 0 ==> r[0] != '0'
    ensures |r| == 1 <==> n < 16
  {
    if n < 16 then [Digits[n]]
    else ToHex(n / 16) + [Digits[n % 16]]
  }

  /** The value of a string of hexadecimal digits: the reading side. */
  function HexValue(s: string): (v: nat)
    requires forall k :: 0 <= k < |s| ==> IsHexDigit(s[k])
  {
    if s == [] then 0 else HexValue(s[..|s| - 1]) * 16 + DigitValue(s[|s| - 1])
  }

  /** `transform(color)`: the string written for a colour. */
  function Encode(c: Color): (r: string)
    requires ValidColor(c)
    ensures 4 <= |r| <= 7 && r[0] == '#'
    ensures forall k :: 1 <= k < |r| ==> IsHexDigit(r[k])
  {
    ChannelWidth(c.red);
    ChannelWidth(c.green);
    ChannelWidth(c.blue);
    "#" + ToHex(c.red) + ToHex(c.green) + ToHex(c.blue)
  }

  // ---------------------------------------------------------------------------
  // Properties

  /** A channel takes one digit below 16 and two from 16 on. */
  lemma ChannelWidth(n: int)
    requires IsChannel(n)
    ensures |ToHex(n)| == if n < 16 then 1 else 2
  {
    if n >= 16 {
      assert ToHex(n) == ToHex(n / 16) + [Digits[n % 16]];
    }
  }

  /** A digit is read back as the value it was written for. */
  lemma DigitRoundTrip(m: int)
    requires 0 <= m < 16
    ensures DigitValue(Digits[m]) == m
  {
  }

  /** Reading the digits back gives the number written. */
  lemma {:induction false} HexRoundTrip(n: nat)
    ensures HexValue(ToHex(n)) == n
  {
    var r := ToHex(n);
    if n < 16 {
      assert r == [Digits[n]];
      DigitRoundTrip(n);
    } else {
      var q, m := n / 16, n % 16;
      assert r == ToHex(q) + [Digits[m]];
      HexRoundTrip(q);
      DigitRoundTrip(m);
      assert r[..|r| - 1] == ToHex(q);
      assert HexValue(r) == HexValue(ToHex(q)) * 16 + DigitValue(Digits[m]);
    }
  }

  /** Colours whose channels are all 16 or more are written as exactly six
      digits, two per channel, so each is read back. */
  lemma WideChannelsDecode(c: Color)
    requires ValidColor(c) && c.red >= 16 && c.green >= 16 && c.blue >= 16
    ensures var s := Encode(c);
            |s| == 7 && HexValue(s[1..3]) == c.red && HexValue(s[3..5]) == c.green && HexValue(s[5..7]) == c.blue
  {
    ChannelWidth(c.red);
    ChannelWidth(c.green);
    ChannelWidth(c.blue);
    var s := Encode(c);
    assert s[1..3] == ToHex(c.red);
    assert s[3..5] == ToHex(c.green);
    assert s[5..7] == ToHex(c.blue);
    HexRoundTrip(c.red);
    HexRoundTrip(c.green);
    HexRoundTrip(c.blue);
  }

  /** The encoding is not injective: two different colours give "#1111". */
  lemma EncodingCollides()
    ensures Encode(Color(1, 17, 1)) == Encode(Color(17, 1, 1)) == "#1111"
  {
    assert ToHex(17) == "11" by {
      assert ToHex(17) == ToHex(1) + [Digits[1]];
    }
  }
}

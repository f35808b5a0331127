/** The escaping `http.Redirect` applies to the target before writing it into the
    `Location` header: every byte at or above 0x80 becomes `%` followed by its value
    in lower-case hexadecimal (as `strconv.AppendInt(b, x, 16)` writes it); every other
    byte is kept. */
module Escape {

  /** A Go string is a sequence of bytes; a `string` stands for it, one character per
      byte, so every character lies below 0x100. */
  predicate IsByteString(s: string)
  {
    forall i :: 0 <= i < |s| ==> s[i] as int < 0x100
  }

  type ByteString = s: string | IsByteString(s)

  /** Byte strings are closed under concatenation. */
  lemma ConcatBytes(a: ByteString, b: ByteString)
    ensures IsByteString(a + b)
  {
    forall i | 0 <= i < |a + b| ensures (a + b)[i] as int < 0x100 {
      if i < |a| { assert (a + b)[i] == a[i]; } else { assert (a + b)[i] == b[i - |a|]; }
    }
  }

  predicate IsAscii(s: string)
  {
    forall i :: 0 <= i < |s| ==> s[i] as int < 0x80
  }

  predicate IsHexDigit(c: char)
  {
    '0' <= c <= '9' || 'a' <= c <= 'f'
  }

  function HexDigit(d: nat): (c: char)
    requires d < 16
    ensures IsHexDigit(c)
  {
    if d < 10 then ('0' as int + d) as char else ('a' as int + d - 10) as char
  }

  function DigitValue(c: char): (d: nat)
    requires IsHexDigit(c)
    ensures d < 16
  {
    if c <= '9' then c as int - '0' as int else c as int - 'a' as int + 10
  }

  /** The lower-case hexadecimal numeral of `n`, most significant digit first, with no
      leading zeros. */
  function HexDigits(n: nat): (h: string)
    ensures 1 <= |h|
    ensures forall i :: 0 <= i < |h| ==> IsHexDigit(h[i])
    ensures IsAscii(h)
    decreases n
  {
    if n < 16 then [HexDigit(n)] else HexDigits(n / 16) + [HexDigit(n % 16)]
  }

  /** The value of a hexadecimal numeral. */
  function HexValue(h: string): nat
    requires forall i :: 0 <= i < |h| ==> IsHexDigit(h[i])
  {
    if |h| == 0 then 0 else HexValue(h[..|h| - 1]) * 16 + DigitValue(h[|h| - 1])
  }

  /** Reading the numeral back gives the number it was written from. */
  lemma {:induction false} HexRoundTrip(n: nat)
    ensures HexValue(HexDigits(n)) == n
    decreases n
  {
    if n >= 16 {
      HexRoundTrip(n / 16);
      var h := HexDigits(n);
      assert h[..|h| - 1] == HexDigits(n / 16);
      assert DigitValue(h[|h| - 1]) == n % 16;
    }
  }

  /** A byte at or above 0x80 is always written as exactly two digits. */
  lemma HighByteTwoDigits(n: nat)
    requires 0x80 <= n < 0x100
    ensures |HexDigits(n)| == 2
  {
    assert 8 <= n / 16 < 16;
  }

  /** The escape of one byte: itself below 0x80, otherwise `%` and two hex digits. */
  function EscapeChar(c: char): (e: string)
    requires c as int < 0x100
    ensures IsAscii(e)
    ensures c as int < 0x80 <==> e == [c]
    ensures c as int >= 0x80 ==> e == ['%', HexDigit(c as int / 16), HexDigit(c as int % 16)]
  {
    if c as int >= 0x80 then
      assert HexDigits(c as int / 16) == [HexDigit(c as int / 16)];
      "%" + HexDigits(c as int)
    else [c]
  }

  /** `http.Redirect`'s escaping of its target. The result is always ASCII. */
  function HexEscapeNonAscii(s: ByteString): (r: string)
    ensures IsAscii(r)
    decreases |s|
  {
    if |s| == 0 then "" else EscapeChar(s[0]) + HexEscapeNonAscii(s[1..])
  }

  /** Escaping changes its input exactly when the input holds a byte at or above 0x80. */
  lemma {:induction false} EscapeKeepsOnlyAscii(s: ByteString)
    ensures HexEscapeNonAscii(s) == s <==> IsAscii(s)
    decreases |s|
  {
    if |s| > 0 {
      var r := HexEscapeNonAscii(s);
      var rest := HexEscapeNonAscii(s[1..]);
      assert r == EscapeChar(s[0]) + rest;
      if s[0] as int < 0x80 {
        EscapeKeepsOnlyAscii(s[1..]);
        assert r == [s[0]] + rest;
        assert s == [s[0]] + s[1..];
        assert IsAscii(s[1..]) ==> IsAscii(s) by {
          if IsAscii(s[1..]) {
            forall i | 1 <= i < |s| ensures s[i] as int < 0x80 {
              assert s[i] == s[1..][i - 1];
            }
          }
        }
      } else {
        assert r[0] as int < 0x80;
      }
    }
  }

  /** Escaping a string that starts with `c` starts with the escape of `c`. */
  lemma EscapeCons(c: char, t: ByteString)
    requires c as int < 0x100
    ensures HexEscapeNonAscii([c] + t) == EscapeChar(c) + HexEscapeNonAscii(t)
  {
    assert ([c] + t)[0] == c;
    assert ([c] + t)[1..] == t;
  }

  /** Escaping works byte by byte: it distributes over concatenation. */
  lemma {:induction false} EscapeConcat(a: ByteString, b: ByteString)
    ensures HexEscapeNonAscii(a + b) == HexEscapeNonAscii(a) + HexEscapeNonAscii(b)
    decreases |a|
  {
    if |a| == 0 {
      assert a + b == b;
    } else {
      var c, t := a[0], a[1..];
      assert a == [c] + t;
      assert a + b == [c] + (t + b);
      EscapeConcat(t, b);
      EscapeCons(c, t + b);
      EscapeCons(c, t);
    }
  }
}

/** The text formats the emitter uses: `{:02X}` hexadecimal bytes, `{}` decimal
    numbers, `{:<N}` left-aligned padding, `DEFB` data lines, and the text that
    a sequence of `writeln!` calls produces. Each format comes with a parser
    that reads it back. */
module Text {
  import opened Assets

  /** The upper-case hexadecimal digit for a value below 16. */
  function HexDigit(d: nat): (c: char)
    requires d < 16
    ensures IsHexDigit(c)
  {
    if d < 10 then ('0' as int + d) as char else ('A' as int + d - 10) as char
  }

  predicate IsHexDigit(c: char)
  {
    '0' <= c <= '9' || 'A' <= c <= 'F'
  }

  function HexValue(c: char): (v: nat)
    requires IsHexDigit(c)
    ensures v < 16
  {
    if c <= '9' then c as int - '0' as int else c as int - 'A' as int + 10
  }

  lemma HexDigitValue(d: nat)
    requires d < 16
    ensures HexValue(HexDigit(d)) == d
  {
  }

  /** `{:02X}` of a `u8`: exactly two upper-case hexadecimal digits, high nibble first. */
  function Hex2(x: Byte): (s: string)
    ensures |s| == 2 && IsHexDigit(s[0]) && IsHexDigit(s[1])
    ensures HexValue(s[0]) * 16 + HexValue(s[1]) == x
  {
    HexDigitValue(x / 16);
    HexDigitValue(x % 16);
    [HexDigit(x / 16), HexDigit(x % 16)]
  }

  function ParseHex2(s: string): Option<Byte>
  {
    if |s| == 2 && IsHexDigit(s[0]) && IsHexDigit(s[1])
    then Some(HexValue(s[0]) * 16 + HexValue(s[1]))
    else None
  }

  lemma Hex2RoundTrip(x: Byte)
    ensures ParseHex2(Hex2(x)) == Some(x)
  {
  }

  function DigitChar(d: nat): (c: char)
    requires d < 10
    ensures '0' <= c <= '9' && c as int - '0' as int == d
  {
    ('0' as int + d) as char
  }

  /** `{}` of an unsigned integer: its decimal digits, most significant first, no padding. */
  function Decimal(n: nat): (s: string)
    ensures 1 <= |s| && IsDecimal(s)
    ensures |s| > 1 ==> s[0] != '0'
  {
    if n < 10 then [DigitChar(n)] else Decimal(n / 10) + [DigitChar(n % 10)]
  }

  predicate IsDecimal(s: string)
  {
    forall i :: 0 <= i < |s| ==> '0' <= s[i] <= '9'
  }

  function ParseDecimal(s: string): nat
    requires IsDecimal(s)
  {
    if s == [] then 0
    else ParseDecimal(s[..|s| - 1]) * 10 + (s[|s| - 1] as int - '0' as int)
  }

  lemma {:induction false} DecimalRoundTrip(n: nat)
    ensures ParseDecimal(Decimal(n)) == n
  {
    if n >= 10 {
      var s := Decimal(n);
      assert s[..|s| - 1] == Decimal(n / 10);
      DecimalRoundTrip(n / 10);
    }
  }

  /** `{:<width}`: the text, then spaces up to `width` characters; never truncated. */
  function PadRight(s: string, width: nat): (r: string)
    ensures |r| == if |s| >= width then |s| else width
    ensures r[..|s|] == s
    ensures forall i :: |s| <= i < |r| ==> r[i] == ' '
  {
    if |s| >= width then s else s + seq(width - |s|, _ => ' ')
  }

  /** The text written by one `writeln!` per line: every line followed by a newline. */
  function Unlines(lines: seq<string>): string
  {
    if lines == [] then "" else Unlines(lines[..|lines| - 1]) + lines[|lines| - 1] + "\n"
  }

  lemma {:induction false} UnlinesAppend(a: seq<string>, b: seq<string>)
    ensures Unlines(a + b) == Unlines(a) + Unlines(b)
  {
    if b != [] {
      var b' := b[..|b| - 1];
      var last := b[|b| - 1];
      assert a + b == (a + b') + [last];
      assert (a + b)[..|a + b| - 1] == a + b';
      assert (a + b)[|a + b| - 1] == last;
      UnlinesAppend(a, b');
      calc {
        Unlines(a + b);
        Unlines(a + b') + last + "\n";
        Unlines(a) + Unlines(b') + last + "\n";
        Unlines(a) + (Unlines(b') + last + "\n");
      }
    } else {
      assert a + b == a;
    }
  }

  lemma UnlinesSnoc(a: seq<string>, line: string)
    ensures Unlines(a + [line]) == Unlines(a) + line + "\n"
  {
    assert (a + [line])[..|a|] == a;
  }

  /** Writing one more line of `lines` after the first `k`. */
  lemma UnlinesTake(lines: seq<string>, k: nat)
    requires k < |lines|
    ensures Unlines(lines[..k + 1]) == Unlines(lines[..k]) + lines[k] + "\n"
  {
    assert lines[..k + 1][..k] == lines[..k];
  }

  /** `, 0xHH` for each byte, in order: what the row writer appends after the first byte. */
  function HexList(bytes: seq<Byte>): string
  {
    if bytes == [] then "" else HexList(bytes[..|bytes| - 1]) + ", 0x" + Hex2(bytes[|bytes| - 1])
  }

  lemma {:induction false} HexListFront(bytes: seq<Byte>)
    requires bytes != []
    ensures HexList(bytes) == ", 0x" + Hex2(bytes[0]) + HexList(bytes[1..])
  {
    var n := |bytes|;
    if n > 1 {
      var init := bytes[..n - 1];
      var last := bytes[n - 1];
      HexListFront(init);
      assert init[0] == bytes[0];
      assert init[1..] == bytes[1..][..n - 2];
      assert bytes[1..][n - 2] == last;
      calc {
        HexList(bytes);
        HexList(init) + ", 0x" + Hex2(last);
        ", 0x" + Hex2(bytes[0]) + HexList(init[1..]) + ", 0x" + Hex2(last);
        ", 0x" + Hex2(bytes[0]) + (HexList(bytes[1..][..n - 2]) + ", 0x" + Hex2(bytes[1..][n - 2]));
        ", 0x" + Hex2(bytes[0]) + HexList(bytes[1..]);
      }
    } else {
      assert bytes[1..] == [];
      assert bytes[..0] == [];
    }
  }

  /** A data line declaring the given bytes: `\tDEFB 0xHH, 0xHH, ...`. */
  function DefbLine(bytes: seq<Byte>): string
    requires bytes != []
  {
    "\tDEFB 0x" + Hex2(bytes[0]) + HexList(bytes[1..])
  }

  /** Reads `HH` followed by any number of `, 0xHH` back into bytes. */
  function ParseHexItems(s: string): Option<seq<Byte>>
    decreases |s|
  {
    if |s| < 2 then None
    else match ParseHex2(s[..2])
      case None => None
      case Some(v) =>
        var rest := s[2..];
        if rest == [] then Some([v])
        else if |rest| >= 4 && rest[..4] == ", 0x" then
          match ParseHexItems(rest[4..])
          case None => None
          case Some(vs) => Some([v] + vs)
        else None
  }

  /** Reads a data line back into the bytes it declares. */
  function ParseDefb(line: string): Option<seq<Byte>>
  {
    if |line| >= 8 && line[..8] == "\tDEFB 0x" then ParseHexItems(line[8..]) else None
  }

  /** Reading resumes after the two digits of the first byte. */
  lemma ParseAfterHex2(x: Byte, rest: string)
    ensures rest == [] ==> ParseHexItems(Hex2(x) + rest) == Some([x])
    ensures |rest| >= 4 && rest[..4] == ", 0x" && ParseHexItems(rest[4..]).Some? ==>
      ParseHexItems(Hex2(x) + rest) == Some([x] + ParseHexItems(rest[4..]).value)
  {
    var s := Hex2(x) + rest;
    assert s[..2] == Hex2(x);
    assert s[2..] == rest;
    Hex2RoundTrip(x);
  }

  lemma {:induction false} ParseHexItemsRoundTrip(bytes: seq<Byte>)
    requires bytes != []
    ensures ParseHexItems(Hex2(bytes[0]) + HexList(bytes[1..])) == Some(bytes)
  {
    var rest := HexList(bytes[1..]);
    if |bytes| == 1 {
      assert bytes[1..] == [];
      ParseAfterHex2(bytes[0], rest);
      assert [bytes[0]] == bytes;
    } else {
      var tail := bytes[1..];
      HexListFront(tail);
      var inner := Hex2(tail[0]) + HexList(tail[1..]);
      assert rest == ", 0x" + inner;
      assert rest[..4] == ", 0x" && rest[4..] == inner;
      ParseHexItemsRoundTrip(tail);
      ParseAfterHex2(bytes[0], rest);
      assert [bytes[0]] + tail == bytes;
    }
  }

  /** A data line reads back as exactly the bytes it was written from. */
  lemma DefbRoundTrip(bytes: seq<Byte>)
    requires bytes != []
    ensures ParseDefb(DefbLine(bytes)) == Some(bytes)
  {
    var line := DefbLine(bytes);
    assert line[8..] == Hex2(bytes[0]) + HexList(bytes[1..]);
    ParseHexItemsRoundTrip(bytes);
  }
}

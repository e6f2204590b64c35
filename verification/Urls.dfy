/**
 * The URL handling the navigation bar and the page router rely on:
 * urllib.parse.quote_plus (the country in a link), urllib.parse.unquote (the
 * country read back from the address bar) over UTF-8, and str.split('/') on
 * a pathname. quote_plus keeps letters, digits and "_.-~", writes a space as
 * '+' and every other character as %XX per UTF-8 byte (upper-case hex);
 * unquote turns %XX escapes (either case) into bytes, decodes each run of
 * bytes as UTF-8 with errors='replace', and leaves a string without '%'
 * untouched.
 */
module Urls {
  type byte = x: int | 0 <= x < 256

  // ----- UTF-8 -----

  /** The UTF-8 encoding of one character: one to four bytes. */
  function EncodeChar(c: char): (bs: seq<byte>)
    ensures 1 <= |bs| <= 4
    ensures |bs| == 1 <==> (c as int) < 0x80
  {
    var n := c as int;
    if n < 0x80 then [n]
    else if n < 0x800 then [0xC0 + n / 64, 0x80 + n % 64]
    else if n < 0x10000 then [0xE0 + n / 4096, 0x80 + n / 64 % 64, 0x80 + n % 64]
    else [0xF0 + n / 0x40000, 0x80 + n / 4096 % 64, 0x80 + n / 64 % 64, 0x80 + n % 64]
  }

  /** str.encode('utf-8'). */
  function Encode(s: string): seq<byte>
  {
    if s == [] then [] else EncodeChar(s[0]) + Encode(s[1..])
  }

  const Replacement: char := '\U{FFFD}'

  /** How many bytes a sequence starting with this lead byte has; 0 for a byte no sequence starts with. */
  function SequenceLength(lead: byte): nat
  {
    if lead < 0x80 then 1
    else if 0xC2 <= lead <= 0xDF then 2
    else if 0xE0 <= lead <= 0xEF then 3
    else if 0xF0 <= lead <= 0xF4 then 4
    else 0
  }

  /**
   * Whether b may be the k-th byte after lead: the second byte of a sequence
   * has narrower ranges after E0, ED, F0 and F4, which rule out overlong
   * forms, surrogates and code points above U+10FFFF.
   */
  predicate ContinuationOk(lead: byte, k: nat, b: byte)
  {
    if k == 1 && lead == 0xE0 then 0xA0 <= b <= 0xBF
    else if k == 1 && lead == 0xED then 0x80 <= b <= 0x9F
    else if k == 1 && lead == 0xF0 then 0x90 <= b <= 0xBF
    else if k == 1 && lead == 0xF4 then 0x80 <= b <= 0x8F
    else 0x80 <= b <= 0xBF
  }

  /**
   * The index, from k on, of the first byte that does not continue the
   * sequence begun by bs[0], or n when bs[k..n] all continue it.
   */
  function FirstBad(bs: seq<byte>, n: nat, k: nat): (j: nat)
    requires 1 <= k <= n && k <= |bs|
    ensures k <= j <= n && j <= |bs|
    ensures forall i :: k <= i < j ==> ContinuationOk(bs[0], i, bs[i])
    ensures j < n ==> j == |bs| || !ContinuationOk(bs[0], j, bs[j])
    decreases n - k
  {
    if k == n then n
    else if k < |bs| && ContinuationOk(bs[0], k, bs[k]) then FirstBad(bs, n, k + 1)
    else k
  }

  /** The character a whole multi-byte sequence encodes. */
  function CodePoint(bs: seq<byte>): char
    requires 2 <= |bs| && SequenceLength(bs[0]) == |bs|
    requires forall i :: 1 <= i < |bs| ==> ContinuationOk(bs[0], i, bs[i])
  {
    assert ContinuationOk(bs[0], 1, bs[1]);
    var b0: int, b1: int := bs[0], bs[1];
    if |bs| == 2 then
      ((b0 - 0xC0) * 64 + (b1 - 0x80)) as char
    else if |bs| == 3 then
      assert ContinuationOk(bs[0], 2, bs[2]);
      var b2: int := bs[2];
      ((b0 - 0xE0) * 4096 + (b1 - 0x80) * 64 + (b2 - 0x80)) as char
    else
      assert ContinuationOk(bs[0], 2, bs[2]) && ContinuationOk(bs[0], 3, bs[3]);
      var b2: int, b3: int := bs[2], bs[3];
      ((b0 - 0xF0) * 0x40000 + (b1 - 0x80) * 4096 + (b2 - 0x80) * 64 + (b3 - 0x80)) as char
  }

  /**
   * bytes.decode('utf-8', 'replace'): a byte no sequence starts with, and a
   * sequence cut short by a byte that does not continue it, each become one
   * U+FFFD, and decoding resumes at the offending byte.
   */
  function Decode(bs: seq<byte>): (s: string)
    ensures |s| <= |bs|
    ensures s == [] <==> bs == []
    decreases |bs|
  {
    if bs == [] then []
    else
      var n := SequenceLength(bs[0]);
      if n == 0 then [Replacement] + Decode(bs[1..])
      else if n == 1 then [bs[0] as char] + Decode(bs[1..])
      else
        var j := FirstBad(bs, n, 1);
        if j == n then [CodePoint(bs[..n])] + Decode(bs[n..])
        else [Replacement] + Decode(bs[j..])
  }

  lemma DecodeOneByte(c: char, rest: seq<byte>)
    requires (c as int) < 0x80
    ensures Decode(EncodeChar(c) + rest) == [c] + Decode(rest)
  {
    var bs := EncodeChar(c) + rest;
    assert bs[1..] == rest;
  }

  lemma DecodeTwoBytes(c: char, rest: seq<byte>)
    requires 0x80 <= (c as int) < 0x800
    ensures Decode(EncodeChar(c) + rest) == [c] + Decode(rest)
  {
    var n := c as int;
    var bs := EncodeChar(c) + rest;
    assert bs[0] == 0xC0 + n / 64 && bs[1] == 0x80 + n % 64;
    assert SequenceLength(bs[0]) == 2;
    assert FirstBad(bs, 2, 1) == 2 by {
      assert ContinuationOk(bs[0], 1, bs[1]);
    }
    assert bs[..2] == EncodeChar(c) && bs[2..] == rest;
    assert (n / 64) * 64 + n % 64 == n;
  }

  lemma DecodeThreeBytes(c: char, rest: seq<byte>)
    requires 0x800 <= (c as int) < 0x10000
    ensures Decode(EncodeChar(c) + rest) == [c] + Decode(rest)
  {
    var n := c as int;
    var bs := EncodeChar(c) + rest;
    assert bs[0] == 0xE0 + n / 4096 && bs[1] == 0x80 + n / 64 % 64 && bs[2] == 0x80 + n % 64;
    assert SequenceLength(bs[0]) == 3;
    assert n < 0xD800 || 0xE000 <= n;
    assert FirstBad(bs, 3, 1) == 3 by {
      assert ContinuationOk(bs[0], 1, bs[1]);
      assert ContinuationOk(bs[0], 2, bs[2]);
      assert FirstBad(bs, 3, 2) == 3;
    }
    assert bs[..3] == EncodeChar(c) && bs[3..] == rest;
    assert n % 4096 == (n / 64 % 64) * 64 + n % 64;
    assert (n / 4096) * 4096 + n % 4096 == n;
  }

  lemma DecodeFourBytes(c: char, rest: seq<byte>)
    requires 0x10000 <= (c as int)
    ensures Decode(EncodeChar(c) + rest) == [c] + Decode(rest)
  {
    var n := c as int;
    assert n <= 0x10FFFF;
    var bs := EncodeChar(c) + rest;
    assert bs[0] == 0xF0 + n / 0x40000 && bs[1] == 0x80 + n / 4096 % 64;
    assert bs[2] == 0x80 + n / 64 % 64 && bs[3] == 0x80 + n % 64;
    assert SequenceLength(bs[0]) == 4;
    assert FirstBad(bs, 4, 1) == 4 by {
      assert ContinuationOk(bs[0], 1, bs[1]);
      assert ContinuationOk(bs[0], 2, bs[2]);
      assert ContinuationOk(bs[0], 3, bs[3]);
      assert FirstBad(bs, 4, 3) == 4;
      assert FirstBad(bs, 4, 2) == 4;
    }
    assert bs[..4] == EncodeChar(c) && bs[4..] == rest;
    FourDigits(n);
  }

  /** A number below 0x110000 in base-64 digits, as the four bytes of its encoding carry them. */
  lemma FourDigits(n: nat)
    ensures (n / 0x40000) * 0x40000 + (n / 4096 % 64) * 4096 + (n / 64 % 64) * 64 + n % 64 == n
  {
    var a := n / 64;
    var b := a / 64;
    var c := b / 64;
    assert n == 64 * a + n % 64;
    assert a == 64 * b + a % 64;
    assert b == 64 * c + b % 64;
    assert n / 4096 == b by {
      assert n == 4096 * b + (64 * (a % 64) + n % 64);
      assert 0 <= 64 * (a % 64) + n % 64 < 4096;
    }
    assert n / 0x40000 == c by {
      assert n == 0x40000 * c + (4096 * (b % 64) + 64 * (a % 64) + n % 64);
      assert 0 <= 4096 * (b % 64) + 64 * (a % 64) + n % 64 < 0x40000;
    }
  }

  /** Decoding the encoding of a character followed by more bytes yields that character first. */
  lemma DecodeEncodeChar(c: char, rest: seq<byte>)
    ensures Decode(EncodeChar(c) + rest) == [c] + Decode(rest)
  {
    var n := c as int;
    if n < 0x80 {
      DecodeOneByte(c, rest);
    } else if n < 0x800 {
      DecodeTwoBytes(c, rest);
    } else if n < 0x10000 {
      DecodeThreeBytes(c, rest);
    } else {
      DecodeFourBytes(c, rest);
    }
  }

  /** UTF-8 decoding undoes UTF-8 encoding: no replacement character is ever produced. */
  lemma {:induction false} DecodeEncode(s: string)
    ensures Decode(Encode(s)) == s
  {
    if s != [] {
      DecodeEncodeChar(s[0], Encode(s[1..]));
      DecodeEncode(s[1..]);
    }
  }

  // ----- quote_plus -----

  /** The characters quote always leaves alone. */
  predicate AlwaysSafe(c: char)
  {
    ('A' <= c <= 'Z') || ('a' <= c <= 'z') || ('0' <= c <= '9') || c == '_' || c == '.' || c == '-' || c == '~'
  }

  /** An upper-case hexadecimal digit. */
  function HexDigit(d: nat): (c: char)
    requires d < 16
  {
    if d < 10 then ('0' as int + d) as char else ('A' as int + d - 10) as char
  }

  predicate IsHexDigit(c: char)
  {
    ('0' <= c <= '9') || ('a' <= c <= 'f') || ('A' <= c <= 'F')
  }

  /** The value of a hexadecimal digit of either case. */
  function HexValue(c: char): (d: nat)
    requires IsHexDigit(c)
    ensures d < 16
  {
    if '0' <= c <= '9' then c as int - '0' as int
    else if 'a' <= c <= 'f' then c as int - 'a' as int + 10
    else c as int - 'A' as int + 10
  }

  lemma HexRoundTrip(d: nat)
    requires d < 16
    ensures IsHexDigit(HexDigit(d)) && HexValue(HexDigit(d)) == d
  {
  }

  /** %XX for each byte. */
  function Escape(bs: seq<byte>): string
  {
    if bs == [] then [] else ['%', HexDigit(bs[0] / 16), HexDigit(bs[0] % 16)] + Escape(bs[1..])
  }

  function QuoteChar(c: char): string
  {
    if AlwaysSafe(c) then [c]
    else if c == ' ' then "+"
    else Escape(EncodeChar(c))
  }

  /** urllib.parse.quote_plus(s) with its default safe=''. */
  function QuotePlus(s: string): (r: string)
    ensures ' ' !in r
  {
    if s == [] then []
    else
      EscapeShape(EncodeChar(s[0]));
      QuoteChar(s[0]) + QuotePlus(s[1..])
  }

  /** s.replace("+", " "). */
  function PlusToSpace(s: string): (r: string)
    ensures |r| == |s|
    ensures forall i :: 0 <= i < |s| ==> r[i] != '+'
  {
    seq(|s|, i requires 0 <= i < |s| => if s[i] == '+' then ' ' else s[i])
  }

  lemma PlusToSpaceAppend(a: string, b: string)
    ensures PlusToSpace(a + b) == PlusToSpace(a) + PlusToSpace(b)
  {
  }

  lemma {:induction false} EscapeShape(bs: seq<byte>)
    ensures |Escape(bs)| == 3 * |bs|
    ensures forall i :: 0 <= i < |Escape(bs)| ==> Escape(bs)[i] != '+' && Escape(bs)[i] != '/' && Escape(bs)[i] != ' '
    ensures bs != [] ==> Escape(bs)[0] == '%'
  {
    if bs != [] {
      EscapeShape(bs[1..]);
      var e := ['%', HexDigit(bs[0] / 16), HexDigit(bs[0] % 16)];
      assert Escape(bs) == e + Escape(bs[1..]);
      forall i | 0 <= i < |Escape(bs)|
        ensures Escape(bs)[i] != '+' && Escape(bs)[i] != '/' && Escape(bs)[i] != ' '
      {
        if i >= 3 {
          assert Escape(bs)[i] == Escape(bs[1..])[i - 3];
        }
      }
    }
  }

  /** The quoted form of a string has no '/', so it is always one path segment. */
  lemma {:induction false} QuotePlusNoSlash(s: string)
    ensures '/' !in QuotePlus(s)
    ensures |QuotePlus(s)| >= |s|
  {
    if s != [] {
      QuotePlusNoSlash(s[1..]);
      if !AlwaysSafe(s[0]) && s[0] != ' ' {
        EscapeShape(EncodeChar(s[0]));
      }
    }
  }

  // ----- unquote -----

  /** A piece of a string being unquoted: a byte (an ASCII character or a %XX escape) or a wider character. */
  datatype Unit = Byte(b: byte) | Wide(c: char)

  /** The string read as bytes and wide characters; a '%' not followed by two hex digits stays a byte. */
  function Units(s: string): (us: seq<Unit>)
    ensures |us| <= |s|
    ensures us == [] <==> s == []
    decreases |s|
  {
    if s == [] then []
    else if |s| >= 3 && s[0] == '%' && IsHexDigit(s[1]) && IsHexDigit(s[2]) then
      [Byte(HexValue(s[1]) * 16 + HexValue(s[2]))] + Units(s[3..])
    else if (s[0] as int) < 0x80 then [Byte(s[0] as int)] + Units(s[1..])
    else [Wide(s[0])] + Units(s[1..])
  }

  /** The leading run of bytes. */
  function LeadingBytes(us: seq<Unit>): (bs: seq<byte>)
    ensures |bs| <= |us|
    ensures forall i :: 0 <= i < |bs| ==> us[i] == Byte(bs[i])
    ensures |bs| < |us| ==> us[|bs|].Wide?
  {
    if us == [] || us[0].Wide? then [] else [us[0].b] + LeadingBytes(us[1..])
  }

  /** Each run of bytes decoded as UTF-8 with replacement, wide characters kept. */
  function DecodeUnits(us: seq<Unit>): (s: string)
    ensures |s| <= |us|
    ensures s == [] <==> us == []
    decreases |us|
  {
    if us == [] then []
    else if us[0].Wide? then [us[0].c] + DecodeUnits(us[1..])
    else
      var bs := LeadingBytes(us);
      Decode(bs) + DecodeUnits(us[|bs|..])
  }

  /** urllib.parse.unquote(s) with encoding='utf-8' and errors='replace'. */
  function Unquote(s: string): (r: string)
    ensures '%' !in s ==> r == s
  {
    if '%' !in s then s else DecodeUnits(Units(s))
  }

  function ByteUnits(bs: seq<byte>): (us: seq<Unit>)
    ensures |us| == |bs| && forall i :: 0 <= i < |bs| ==> us[i] == Byte(bs[i])
  {
    seq(|bs|, i requires 0 <= i < |bs| => Byte(bs[i]))
  }

  lemma {:induction false} UnitsOfEscape(bs: seq<byte>, rest: string)
    ensures Units(Escape(bs) + rest) == ByteUnits(bs) + Units(rest)
  {
    if bs == [] {
      assert Escape(bs) + rest == rest;
      assert ByteUnits(bs) == [];
    } else {
      var tail := Escape(bs[1..]) + rest;
      calc {
        Units(Escape(bs) + rest);
        { assert Escape(bs) + rest == ['%', HexDigit(bs[0] / 16), HexDigit(bs[0] % 16)] + tail; }
        Units(['%', HexDigit(bs[0] / 16), HexDigit(bs[0] % 16)] + tail);
        { UnitsOfOneEscape(bs[0], tail); }
        [Byte(bs[0])] + Units(tail);
        { UnitsOfEscape(bs[1..], rest); }
        [Byte(bs[0])] + (ByteUnits(bs[1..]) + Units(rest));
        { assert ByteUnits(bs) == [Byte(bs[0])] + ByteUnits(bs[1..]); }
        ByteUnits(bs) + Units(rest);
      }
    }
  }

  lemma UnitsOfOneEscape(b: byte, rest: string)
    ensures Units(['%', HexDigit(b / 16), HexDigit(b % 16)] + rest) == [Byte(b)] + Units(rest)
  {
    HexRoundTrip(b / 16);
    HexRoundTrip(b % 16);
    var s := ['%', HexDigit(b / 16), HexDigit(b % 16)] + rest;
    assert s[0] == '%' && s[1] == HexDigit(b / 16) && s[2] == HexDigit(b % 16);
    assert s[3..] == rest;
    assert HexValue(s[1]) * 16 + HexValue(s[2]) == b;
  }

  lemma UnitsOfQuotedChar(c: char, rest: string)
    ensures Units(PlusToSpace(QuoteChar(c)) + rest) == ByteUnits(EncodeChar(c)) + Units(rest)
  {
    if AlwaysSafe(c) || c == ' ' {
      var s := PlusToSpace(QuoteChar(c)) + rest;
      assert s[0] == c && s[1..] == rest;
    } else {
      EscapeShape(EncodeChar(c));
      assert PlusToSpace(QuoteChar(c)) == Escape(EncodeChar(c));
      UnitsOfEscape(EncodeChar(c), rest);
    }
  }

  lemma {:induction false} UnitsOfQuoted(s: string)
    ensures Units(PlusToSpace(QuotePlus(s))) == ByteUnits(Encode(s))
  {
    if s != [] {
      PlusToSpaceAppend(QuoteChar(s[0]), QuotePlus(s[1..]));
      UnitsOfQuotedChar(s[0], PlusToSpace(QuotePlus(s[1..])));
      UnitsOfQuoted(s[1..]);
      ByteUnitsAppend(EncodeChar(s[0]), Encode(s[1..]));
    }
  }

  lemma ByteUnitsAppend(a: seq<byte>, b: seq<byte>)
    ensures ByteUnits(a + b) == ByteUnits(a) + ByteUnits(b)
  {
  }

  /** A run made only of bytes decodes as one UTF-8 byte string. */
  lemma DecodeByteUnits(bs: seq<byte>)
    ensures DecodeUnits(ByteUnits(bs)) == Decode(bs)
  {
    var us := ByteUnits(bs);
    if bs != [] {
      assert LeadingBytes(us) == bs;
      assert us[|bs|..] == [];
    }
  }

  /** Without a '%', the quoted and de-plussed string is the original: every character was safe or a space. */
  lemma {:induction false} PlainQuoted(s: string)
    ensures '%' !in PlusToSpace(QuotePlus(s)) ==> PlusToSpace(QuotePlus(s)) == s
  {
    if s != [] {
      PlusToSpaceAppend(QuoteChar(s[0]), QuotePlus(s[1..]));
      var q := PlusToSpace(QuotePlus(s));
      if !AlwaysSafe(s[0]) && s[0] != ' ' {
        EscapeShape(EncodeChar(s[0]));
        assert q[0] == '%';
      } else {
        assert PlusToSpace(QuoteChar(s[0])) == [s[0]];
        PlainQuoted(s[1..]);
        if '%' !in q {
          assert '%' !in PlusToSpace(QuotePlus(s[1..])) by {
            assert forall i :: 0 <= i < |PlusToSpace(QuotePlus(s[1..]))| ==> PlusToSpace(QuotePlus(s[1..]))[i] == q[i + 1];
          }
          assert s == [s[0]] + s[1..];
        }
      }
    }
  }

  /**
   * The link round trip: unquoting a quote_plus'd string after turning '+'
   * back into spaces gives the string back, whatever characters it holds.
   */
  lemma UnquoteQuotePlus(s: string)
    ensures Unquote(PlusToSpace(QuotePlus(s))) == s
  {
    var q := PlusToSpace(QuotePlus(s));
    if '%' !in q {
      PlainQuoted(s);
    } else {
      UnitsOfQuoted(s);
      DecodeByteUnits(Encode(s));
      DecodeEncode(s);
    }
  }

  // ----- str.split('/') -----

  /** s.split('/'): always at least one part, "" giving [""]. */
  function Split(s: string): (parts: seq<string>)
    ensures |parts| >= 1
  {
    if s == [] then [[]]
    else if s[0] == '/' then [[]] + Split(s[1..])
    else
      var rest := Split(s[1..]);
      [[s[0]] + rest[0]] + rest[1..]
  }

  /** '/'.join(parts). */
  function Join(parts: seq<string>): string
    requires |parts| >= 1
  {
    if |parts| == 1 then parts[0] else parts[0] + "/" + Join(parts[1..])
  }

  /** No part of a split holds the separator, and there is one more part than separators. */
  lemma {:induction false} SplitParts(s: string)
    ensures forall i :: 0 <= i < |Split(s)| ==> '/' !in Split(s)[i]
    ensures |Split(s)| >= 2 <==> '/' in s
  {
    if s != [] {
      SplitParts(s[1..]);
      var rest := Split(s[1..]);
      if s[0] != '/' {
        assert '/' !in [s[0]] + rest[0];
        forall i | 0 <= i < |Split(s)| ensures '/' !in Split(s)[i] {
          if i > 0 {
            assert Split(s)[i] == rest[i];
          }
        }
      }
    }
  }

  /** Joining the parts of a split gives the string back. */
  lemma {:induction false} JoinSplit(s: string)
    ensures Join(Split(s)) == s
  {
    if s != [] {
      JoinSplit(s[1..]);
      var rest := Split(s[1..]);
      if s[0] == '/' {
        var parts := [[]] + rest;
        assert Split(s) == parts && parts[1..] == rest;
        calc {
          Join(parts);
          parts[0] + "/" + Join(rest);
          "/" + s[1..];
          s;
        }
      } else {
        var parts := [[s[0]] + rest[0]] + rest[1..];
        assert Split(s) == parts;
        if |rest| == 1 {
          calc {
            Join(parts);
            [s[0]] + rest[0];
            [s[0]] + s[1..];
            s;
          }
        } else {
          assert parts[1..] == rest[1..];
          calc {
            Join(parts);
            ([s[0]] + rest[0]) + "/" + Join(rest[1..]);
            [s[0]] + (rest[0] + "/" + Join(rest[1..]));
            [s[0]] + Join(rest);
            s;
          }
        }
      }
    }
  }

  lemma JoinThree(a: string, b: string, c: string)
    ensures Join([a, b, c]) == a + "/" + b + "/" + c
  {
    assert [a, b, c][1..] == [b, c] && [b, c][1..] == [c];
    assert Join([c]) == c;
    assert Join([b, c]) == b + "/" + c;
  }

  /** A pathname "/a/b" with neither a nor b holding '/' splits into "", a and b. */
  lemma SplitTwoSegments(a: string, b: string)
    requires '/' !in a && '/' !in b
    ensures Split("/" + a + "/" + b) == ["", a, b]
  {
    JoinThree("", a, b);
    assert "/" + a + "/" + b == Join(["", a, b]);
    SplitJoin(["", a, b]);
  }

  /** Splitting parts joined with '/' gives the parts back when none of them holds '/'. */
  lemma {:induction false} SplitJoin(parts: seq<string>)
    requires |parts| >= 1
    requires forall i :: 0 <= i < |parts| ==> '/' !in parts[i]
    ensures Split(Join(parts)) == parts
  {
    if |parts| == 1 {
      SplitWithoutSlash(parts[0], []);
      assert parts[0] + [] == parts[0] && Join(parts) == parts[0] + [];
    } else {
      SplitJoin(parts[1..]);
      var s := "/" + Join(parts[1..]);
      SplitWithoutSlash(parts[0], s);
      assert s[1..] == Join(parts[1..]);
      assert Split(s) == [[]] + parts[1..];
      assert Split(s)[0] == [] && Split(s)[1..] == parts[1..];
      assert Join(parts) == parts[0] + s;
      assert parts[0] + [] == parts[0];
      assert parts == [parts[0]] + parts[1..];
    }
  }

  /** A first part without '/' joins the first part of whatever follows it. */
  lemma {:induction false} SplitWithoutSlash(word: string, rest: string)
    requires '/' !in word
    ensures Split(word + rest) == [word + Split(rest)[0]] + Split(rest)[1..]
  {
    var tail := Split(rest);
    if word == [] {
      assert word + rest == rest && word + tail[0] == tail[0];
      assert tail == [tail[0]] + tail[1..];
    } else {
      var t := word + rest;
      assert t[0] == word[0] && t[1..] == word[1..] + rest;
      SplitWithoutSlash(word[1..], rest);
      var r := Split(t[1..]);
      assert r[0] == word[1..] + tail[0] && r[1..] == tail[1..];
      assert Split(t) == [[word[0]] + r[0]] + r[1..];
      assert [word[0]] + (word[1..] + tail[0]) == word + tail[0];
    }
  }
}

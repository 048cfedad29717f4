/** Files travel as text: two hexadecimal digits per byte. */
module Hex {
  import opened Text
  import opened Wire
  import opened GetReply

  type Byte = b: int | 0 <= b < 256

  function HexDigit(n: nat): char
    requires n < 16
  {
    if n < 10 then ('0' as int + n) as char else ('a' as int + n - 10) as char
  }

  function DigitValue(c: char): int {
    if '0' <= c <= '9' then c as int - '0' as int
    else if 'a' <= c <= 'f' then c as int - 'a' as int + 10
    else if 'A' <= c <= 'F' then c as int - 'A' as int + 10
    else -1
  }

  /** `%02x`. */
  function TwoDigits(b: Byte): string {
    [HexDigit(b / 16), HexDigit(b % 16)]
  }

  function Encoded(content: seq<Byte>): (s: string)
    ensures |s| == 2 * |content|
  {
    if content == [] then "" else Encoded(content[..|content| - 1]) + TwoDigits(content[|content| - 1])
  }

  /** Reading a hexadecimal number from at most two characters; 0 if the first is no digit. */
  function HexNumber(s: string): (n: Byte)
    requires 1 <= |s| <= 2
  {
    var a := DigitValue(s[0]);
    if a < 0 then 0
    else if |s| == 1 || DigitValue(s[1]) < 0 then a
    else 16 * a + DigitValue(s[1])
  }

  /** `convert_binary_to_str`. */
  method ConvertBinaryToStr(content: seq<Byte>) returns (s: string)
    ensures s == Encoded(content)
  {
    s := "";
    var i := 0;
    while i < |content|
      invariant i <= |content| && s == Encoded(content[..i])
    {
      assert content[..i + 1][..i] == content[..i];
      s := s + TwoDigits(content[i]);
      i := i + 1;
    }
    assert content[..i] == content;
  }

  /** `convert_str_to_binary`: the loop bound is unsigned, so the text must not be empty; the
      last character of a text of odd length is not looked at. */
  method ConvertStrToBinary(str: string) returns (content: seq<Byte>)
    requires str != ""
    ensures |content| == |str| / 2
    ensures forall i :: 0 <= i < |content| ==> content[i] == HexNumber(str[2 * i..2 * i + 2])
  {
    content := [];
    var i := 0;
    while i < |str| - 1
      invariant 0 <= i <= |str| && i % 2 == 0 && |content| == i / 2
      invariant forall j :: 0 <= j < |content| ==> content[j] == HexNumber(str[2 * j..2 * j + 2])
    {
      content := content + [HexNumber(str[i..i + 2])];
      i := i + 2;
    }
  }

  lemma {:induction false} EncodedAt(content: seq<Byte>, i: nat)
    requires i < |content|
    ensures Encoded(content)[2 * i..2 * i + 2] == TwoDigits(content[i])
  {
    if i < |content| - 1 {
      EncodedAt(content[..|content| - 1], i);
    }
  }

  const LOWER_DIGITS := "0123456789abcdef"
  const UPPER_DIGITS := "0123456789ABCDEF"

  /** Digits of either case have their value, and everything else has none. */
  lemma {:induction false} DigitIff(c: char, n: nat)
    requires n < 16
    ensures DigitValue(c) == n <==> c == LOWER_DIGITS[n] || c == UPPER_DIGITS[n]
    ensures DigitValue(c) < 16 && HexDigit(n) == LOWER_DIGITS[n]
  {
    DigitIs(n);
    if DigitValue(c) == n {
      ValueOnce(c, n);
    }
  }

  lemma {:induction false} DigitIs(n: nat)
    requires n < 16
    ensures DigitValue(LOWER_DIGITS[n]) == n == DigitValue(UPPER_DIGITS[n]) && HexDigit(n) == LOWER_DIGITS[n]
    ensures LOWER_DIGITS[n] as int == if n < 10 then 48 + n else 87 + n
    ensures UPPER_DIGITS[n] as int == if n < 10 then 48 + n else 55 + n
  {
  }

  lemma {:induction false} ValueOnce(c: char, n: nat)
    requires n < 16 && DigitValue(c) == n
    ensures c == LOWER_DIGITS[n] || c == UPPER_DIGITS[n]
  {
    DigitIs(n);
  }

  /** What a pair of characters is read as: both digits, the first one alone, or nothing. */
  lemma {:induction false} PairIs(c: char, x: char)
    ensures HexNumber([c, x]) ==
            if DigitValue(c) < 0 then 0
            else if DigitValue(x) < 0 then DigitValue(c) else DigitValue(c) * 16 + DigitValue(x)
    ensures HexNumber([c]) == if DigitValue(c) < 0 then 0 else DigitValue(c)
  {
  }

  lemma {:induction false} DigitsOfByte(b: Byte)
    ensures HexNumber(TwoDigits(b)) == b
  {
  }

  /** Every character of an encoded file is a digit or one of "abcdef". */
  lemma {:induction false} EncodedChars(content: seq<Byte>)
    ensures forall i :: 0 <= i < |Encoded(content)| ==> DigitValue(Encoded(content)[i]) >= 0
  {
    if content != [] {
      EncodedChars(content[..|content| - 1]);
    }
  }

  /** The characters of a framed text of digits: no '-', and a '.' only in the end mark. */
  lemma {:induction false} FramedChars(d: string)
    requires forall i :: 0 <= i < |d| ==> DigitValue(d[i]) >= 0
    ensures var f := Frame("DATA", d); forall x :: 0 <= x < |f| ==> f[x] != '-'
  {
    var f, n := Frame("DATA", d), 6 + |d|;
    forall x | 0 <= x < |f|
      ensures f[x] != '-'
    {
      if x < 6 {
        assert f[x] == "DATA\r\n"[x];
      } else if x < n {
        assert f[x] == d[x - 6];
      } else {
        assert f[x] == TERM[x - n];
      }
    }
  }

  lemma {:induction false} NoDash(f: string, p: string)
    requires forall x :: 0 <= x < |f| ==> f[x] != '-'
    requires |p| > 0 && p[0] == '-'
    ensures !Contains(f, p)
  {
    hide FindFrom;
    var a := Find(f, p);
    if a != NPOS {
      AtChar(f, p, a, 0);
    }
  }

  lemma {:induction false} DigitsClean(d: string)
    requires forall i :: 0 <= i < |d| ==> DigitValue(d[i]) >= 0
    ensures Clean(d)
  {
    hide FindFrom;
    var e := "\r\n" + (d + "\r\n");
    forall j | 0 <= j < |d|
      ensures !At(e, TERM, j)
    {
      assert e[j + 2] == d[j];
      TermAt(e, j);
    }
  }

  /** An encoded file is a clean value whose reply holds no error marker. */
  lemma {:induction false} EncodedIsPlain(content: seq<Byte>)
    ensures var d := Encoded(content);
            Clean(d) && !Contains(Frame("DATA", d), SHUTDOWN) && !Contains(Frame("DATA", d), NULL_ERR)
  {
    hide Find, Encoded, Clean, Contains;
    var d := Encoded(content);
    EncodedChars(content);
    DigitsClean(d);
    FramedChars(d);
    NoDash(Frame("DATA", d), SHUTDOWN);
    NoDash(Frame("DATA", d), NULL_ERR);
  }

  /** Upload and download: the bytes of a non-empty file, encoded, framed, cut out by the
      server, replied in any pieces and decoded, are the bytes of the file. */
  method UploadDownload(content: seq<Byte>, pieces: seq<string>) returns (back: seq<Byte>)
    requires content != [] && Pieces(Frame("DATA", Encoded(content)), pieces)
    ensures back == content
  {
    var d := ConvertBinaryToStr(content);
    EncodedIsPlain(content);
    PutRoundTripIff(d, Frame("DATA", d));
    hide Clean, Contains, Frame, Encoded;
    // the value the server stores, and what it replies for it
    var stored := PutValue(Frame("DATA", d));
    assert stored == d + "\r\n";
    GetExactIff(d);
    var r := ReadGetData(pieces);
    assert r == Text(d);
    back := ConvertStrToBinary(r.text);
    forall i | 0 <= i < |content|
      ensures back[i] == content[i]
    {
      EncodedAt(content, i);
      DigitsOfByte(content[i]);
    }
  }
}

// Percent-encoding as Utils does it (sections 2.1 and 2.3 of RFC 3986), byte by
// byte. A char stands for one byte of a std::string.

module UrlCodec {
  import opened Text

  predicate IsByte(c: char) { c as int < 256 }

  predicate Bytes(s: string) { forall i :: 0 <= i < |s| ==> IsByte(s[i]) }

  function Lower(c: char): int {
    if 'A' <= c <= 'Z' then c as int + 32 else c as int
  }

  /// from_hex, as the byte it returns; characters that are not hex digits wrap around.
  function FromHex(c: char): (r: nat)
    ensures r < 256
  {
    if '0' <= c <= '9' then c as int - '0' as int else (Lower(c) - 'a' as int + 10) % 256
  }

  function BitOr(a: nat, b: nat): nat
    decreases a + b
  {
    if a == 0 then b
    else if b == 0 then a
    else 2 * BitOr(a / 2, b / 2) + (if a % 2 == 1 || b % 2 == 1 then 1 else 0)
  }

  /// The char `from_hex(a) << 4 | from_hex(b)` is truncated to.
  function HexByte(a: char, b: char): char {
    (BitOr(FromHex(a) * 16 % 256, FromHex(b)) % 256) as char
  }

  function HexDigit(n: nat): char
    requires n < 16
  {
    if n < 10 then ('0' as int + n) as char else ('A' as int + n - 10) as char
  }

  predicate Unreserved(c: char) {
    '0' <= c <= '9' || 'A' <= c <= 'Z' || 'a' <= c <= 'z' || c in "-._~"
  }

  function EncodeByte(c: char): string
    requires IsByte(c)
  {
    if Unreserved(c) then [c] else ['%', HexDigit(c as int / 16), HexDigit(c as int % 16)]
  }

  function Encode(s: string): string
    requires Bytes(s)
  {
    if s == "" then "" else EncodeByte(s[0]) + Encode(s[1..])
  }

  /// A '%' with two more non-NUL bytes behind it.
  predicate Escape(s: string) {
    |s| >= 3 && s[0] == '%' && s[1] != '\0' && s[2] != '\0'
  }

  /// The bytes one turn of the decoder's loop appends, and how many it reads.
  function Emitted(s: string): string
    requires s != ""
  {
    if Escape(s) then [HexByte(s[1], s[2])]
    else if s[0] == '%' then ""
    else if s[0] == '+' then " "
    else [s[0]]
  }

  function Taken(s: string): (n: nat)
    requires s != ""
    ensures 1 <= n <= |s|
  {
    if Escape(s) then 3 else 1
  }

  function Decode(s: string): string
    decreases |s|
  {
    if s == "" then "" else Emitted(s) + Decode(s[Taken(s)..])
  }

  // ------------------------------------------------- the loops

  method UrlEncode(input: string) returns (encoded: string)
    requires Bytes(input)
    ensures encoded == Encode(input)
  {
    encoded := "";
    var i := 0;
    assert input[0..] == input;
    while i < |input|
      invariant i <= |input| && encoded + Encode(input[i..]) == Encode(input)
    {
      var c := input[i];
      ghost var rest := input[i..];
      assert rest[1..] == input[i + 1..];
      Assoc(encoded, EncodeByte(c), Encode(input[i + 1..]));
      if Unreserved(c) {
        encoded := encoded + [c];
      } else {
        encoded := encoded + ['%', HexDigit(c as int / 16), HexDigit(c as int % 16)];
      }
      i := i + 1;
    }
  }

  /// Reading at the end of a std::string gives its terminating NUL.
  function Peek(s: string, i: nat): char { if i < |s| then s[i] else '\0' }

  method UrlDecode(text: string) returns (decoded: string)
    ensures decoded == Decode(text)
  {
    decoded := "";
    var i := 0;
    assert text[0..] == text;
    while i < |text|
      invariant i <= |text| && decoded + Decode(text[i..]) == Decode(text)
    {
      hide HexByte;
      var c := text[i];
      ghost var rest := text[i..];
      assert rest[Taken(rest)..] == text[i + Taken(rest)..];
      Assoc(decoded, Emitted(rest), Decode(text[i + Taken(rest)..]));
      if c == '%' {
        if Peek(text, i + 1) != '\0' && Peek(text, i + 2) != '\0' {
          decoded := decoded + [HexByte(text[i + 1], text[i + 2])];
          i := i + 2;
        }
      } else if c == '+' {
        decoded := decoded + " ";
      } else {
        decoded := decoded + [c];
      }
      i := i + 1;
    }
  }

  // ------------------------------------------------- round trip

  lemma OrNibbles(h: nat, l: nat)
    requires h < 16 && l < 16
    ensures BitOr(16 * h, l) == 16 * h + l
  {
    hide BitOr;
    OrStep(8 * h, l);
    OrStep(4 * h, l / 2);
    OrStep(2 * h, l / 4);
    OrStep(h, l / 8);
    assert l / 2 / 2 == l / 4 && l / 4 / 2 == l / 8 && l / 8 / 2 == 0;
    OrZero(h);
  }

  lemma OrZero(h: nat)
    ensures BitOr(h, 0) == h
  {
  }

  lemma OrStep(a: nat, b: nat)
    ensures BitOr(2 * a, b) == 2 * BitOr(a, b / 2) + b % 2
  {
    if a == 0 { assert BitOr(0, b) == b; assert BitOr(0, b / 2) == b / 2; }
    else if b == 0 { assert BitOr(a, 0) == a; }
  }

  lemma HexRoundTrip(c: char)
    requires IsByte(c)
    ensures HexByte(HexDigit(c as int / 16), HexDigit(c as int % 16)) == c
    ensures HexDigit(c as int / 16) != '\0' && HexDigit(c as int % 16) != '\0'
  {
    var h, l := c as int / 16, c as int % 16;
    HexDigitValue(h);
    HexDigitValue(l);
    OrNibbles(h, l);
    hide BitOr, FromHex, HexDigit;
    assert h * 16 % 256 == 16 * h;
  }

  lemma HexDigitValue(n: nat)
    requires n < 16
    ensures FromHex(HexDigit(n)) == n && HexDigit(n) != '\0'
  {
  }

  /// Encoding then decoding gives back every byte string, NUL and all.
  lemma {:induction false} RoundTrip(s: string)
    requires Bytes(s)
    ensures Decode(Encode(s)) == s
  {
    if s != "" {
      RoundTrip(s[1..]);
      DecodeByte(s[0], Encode(s[1..]));
    }
  }

  /// Encoded text is unreserved characters and '%' only, and only reserved bytes change.
  lemma {:induction false} EncodedIsSafe(s: string)
    requires Bytes(s)
    ensures forall i :: 0 <= i < |Encode(s)| ==> Unreserved(Encode(s)[i]) || Encode(s)[i] == '%'
    ensures Encode(s) == s <==> forall i :: 0 <= i < |s| ==> Unreserved(s[i])
    ensures |s| <= |Encode(s)|
  {
    if s != "" {
      EncodedIsSafe(s[1..]);
      assert s == [s[0]] + s[1..];
      if Unreserved(s[0]) {
        assert Encode(s)[1..] == Encode(s[1..]);
      } else {
        HexDigitSafe(s[0] as int / 16);
        HexDigitSafe(s[0] as int % 16);
        assert |Encode(s)| > |s|;
      }
    }
  }

  lemma HexDigitSafe(n: nat)
    requires n < 16
    ensures Unreserved(HexDigit(n))
  {
  }

  lemma DecodeByte(c: char, rest: string)
    requires IsByte(c)
    ensures Decode(EncodeByte(c) + rest) == [c] + Decode(rest)
  {
    HexRoundTrip(c);
    var t := EncodeByte(c) + rest;
    assert t[|EncodeByte(c)|..] == rest;
  }

  // ------------------------------------------------- every spelling

  /// The value of a hex digit, in either case.
  function HexValue(c: char): Option<nat> {
    if '0' <= c <= '9' then Some(c as nat - '0' as nat)
    else if 'A' <= c <= 'F' then Some(10 + c as nat - 'A' as nat)
    else if 'a' <= c <= 'f' then Some(10 + c as nat - 'a' as nat)
    else None
  }

  /// `t` spells `s`: a byte as itself, unless it is '%' or '+', or escaped with hex digits in
  /// either case, and a space also as '+'.
  predicate Spells(t: string, s: string)
    decreases |t|
  {
    if s == "" || t == "" then t == s
    else if t[0] == '%' then
      && |t| >= 3 && HexValue(t[1]).Some? && HexValue(t[2]).Some?
      && s[0] as nat == 16 * HexValue(t[1]).value + HexValue(t[2]).value && Spells(t[3..], s[1..])
    else (if t[0] == '+' then s[0] == ' ' else s[0] == t[0]) && Spells(t[1..], s[1..])
  }

  lemma HexByteValue(a: char, b: char)
    requires HexValue(a).Some? && HexValue(b).Some?
    ensures HexByte(a, b) as nat == 16 * HexValue(a).value + HexValue(b).value && a != '\0' && b != '\0'
  {
    HexValueRead(a);
    HexValueRead(b);
    var h, l := FromHex(a), FromHex(b);
    OrNibbles(h, l);
    hide BitOr, FromHex, HexValue;
    assert h * 16 % 256 == 16 * h;
  }

  lemma HexValueRead(c: char)
    requires HexValue(c).Some?
    ensures FromHex(c) == HexValue(c).value < 16 && c != '\0'
  {
  }

  /// Decoding reads every spelling of a text, not only the encoder's own.
  lemma {:induction false} SpellingDecodes(t: string, s: string)
    requires Spells(t, s)
    ensures Decode(t) == s
    decreases |t|
  {
    if t != "" && s != "" {
      if t[0] == '%' {
        HexByteValue(t[1], t[2]);
        hide HexByte, HexValue;
        SpellingDecodes(t[3..], s[1..]);
        assert s == [s[0]] + s[1..];
      } else {
        SpellingDecodes(t[1..], s[1..]);
        assert s == [s[0]] + s[1..];
      }
    }
  }

  /// The encoder's is one of them.
  lemma {:induction false} EncodeSpells(s: string)
    requires Bytes(s)
    ensures Spells(Encode(s), s)
  {
    if s != "" {
      EncodeSpells(s[1..]);
      var c, rest := s[0], Encode(s[1..]);
      var t := EncodeByte(c) + rest;
      assert t[|EncodeByte(c)|..] == rest;
      if !Unreserved(c) {
        DigitSpells(c as int / 16);
        DigitSpells(c as int % 16);
      }
    }
  }

  lemma DigitSpells(n: nat)
    requires n < 16
    ensures HexValue(HexDigit(n)) == Some(n)
  {
  }

  // ------------------------------------------------- decoding in pieces

  /// No escape is left unfinished at the end.
  predicate Complete(s: string)
    decreases |s|
  {
    if s == "" then true
    else if s[0] == '%' && (|s| == 1 || (|s| == 2 && s[1] != '\0')) then false
    else Complete(s[Taken(s)..])
  }

  lemma {:induction false} DecodeAppend(a: string, b: string)
    requires Complete(a)
    ensures Decode(a + b) == Decode(a) + Decode(b)
    decreases |a|
  {
    if a == "" {
      assert a + b == b;
    } else {
      var n := Taken(a);
      assert Taken(a + b) == n && Emitted(a + b) == Emitted(a);
      assert (a + b)[n..] == a[n..] + b;
      DecodeAppend(a[n..], b);
      Assoc(Emitted(a), Decode(a[n..]), Decode(b));
    }
  }

  /// A '%' that two bytes other than NUL do not follow is dropped.
  lemma UnfinishedDropped(a: string, t: string)
    requires Complete(a) && t != "" && t[0] == '%' && (|t| < 3 || t[1] == '\0' || t[2] == '\0')
    ensures Decode(a + t) == Decode(a) + Decode(t[1..])
  {
    hide Decode, Complete, HexByte;
    DecodeAppend(a, t);
    DecodeUnfold(t);
    assert Taken(t) == 1 && Emitted(t) == "";
    assert "" + Decode(t[1..]) == Decode(t[1..]);
  }

  lemma {:induction false} DanglingDiffers(a: string) returns (b: string)
    requires !Complete(a)
    ensures Decode(a + b) != Decode(a) + Decode(b)
    decreases |a|
  {
    if a[0] == '%' && |a| == 1 {
      b := "41";
      OneDangling(a);
    } else if a[0] == '%' && |a| == 2 && a[1] != '\0' {
      b := "11";
      OneDigitsDecode("11");
      TwoDangling(a);
    } else {
      b := DanglingDiffers(a[Taken(a)..]);
      DanglingLater(a, b);
    }
  }

  lemma OneDangling(a: string)
    requires a == "%"
    ensures Decode(a + "41") != Decode(a) + Decode("41")
  {
    hide HexByte;
    OneDigitsDecode("41");
    assert a[1..] == "";
    assert Escape(a + "41") && (a + "41")[3..] == "";
    assert |Decode(a + "41")| == 1;
  }

  lemma DecodeUnfold(s: string)
    requires s != ""
    ensures Decode(s) == Emitted(s) + Decode(s[Taken(s)..])
  {
  }

  lemma DanglingLater(a: string, b: string)
    requires a != "" && !(a[0] == '%' && (|a| == 1 || (|a| == 2 && a[1] != '\0')))
    requires Decode(a[Taken(a)..] + b) != Decode(a[Taken(a)..]) + Decode(b)
    ensures Decode(a + b) != Decode(a) + Decode(b)
  {
    hide HexByte, Decode;
    var rest := a[Taken(a)..];
    DecodeUnfold(a);
    DecodeUnfold(a + b);
    assert Taken(a + b) == Taken(a) && Emitted(a + b) == Emitted(a);
    assert (a + b)[Taken(a)..] == rest + b;
    Assoc(Emitted(a), Decode(rest), Decode(b));
    CancelLeft(Emitted(a), Decode(rest + b), Decode(rest) + Decode(b));
  }

  lemma CancelLeft(e: string, x: string, y: string)
    requires x != y
    ensures e + x != e + y
  {
    assert (e + x)[|e|..] == x && (e + y)[|e|..] == y;
  }

  lemma PercentOne()
    ensures HexByte('%', '1') != '1'
  {
    assert FromHex('%') == 206 && FromHex('1') == 1;
    OrNibbles(14, 1);
    assert HexByte('%', '1') as int == 225;
  }

  lemma OneDigitsDecode(d: string)
    requires |d| == 2 && '0' <= d[0] <= '9' && '0' <= d[1] <= '9'
    ensures Decode(d) == d
  {
    assert d[1..] == [d[1]] && d[1..][1..] == "";
    assert Decode([d[1]]) == [d[1]];
  }

  lemma TwoDangling(a: string)
    requires |a| == 2 && a[0] == '%' && a[1] != '\0'
    ensures Decode(a + "11") != Decode(a) + "11"
  {
    hide HexByte;
    var t := a + "11";
    assert Escape(t) && t[3..] == "1";
    assert "1"[1..] == "" && Decode("1") == "1";
    assert Decode(t) == [HexByte(a[1], '1')] + "1";
    assert a[1..] == [a[1]] && [a[1]][1..] == "";
    assert Decode(a) == Decode([a[1]]) == Emitted([a[1]]) + "";
    if a[1] == '%' {
      PercentOne();
    } else {
      assert |Decode(t)| == 2 && |Decode(a) + "11"| == 3;
    }
  }

  /// Decoding distributes over a cut exactly where no escape is left unfinished.
  lemma DecodeDistributes(a: string)
    ensures Complete(a) <==> forall b :: Decode(a + b) == Decode(a) + Decode(b)
  {
    if Complete(a) {
      forall b ensures Decode(a + b) == Decode(a) + Decode(b) { DecodeAppend(a, b); }
    } else {
      var b := DanglingDiffers(a);
    }
  }

  /// Decoding never lengthens.
  lemma {:induction false} DecodeShortens(s: string)
    ensures |Decode(s)| <= |s|
    decreases |s|
  {
    if s != "" { DecodeShortens(s[Taken(s)..]); }
  }

  lemma {:induction false} CompleteAppend(a: string, b: string)
    requires Complete(a) && Complete(b)
    ensures Complete(a + b)
    decreases |a|
  {
    if a == "" {
      assert a + b == b;
    } else {
      assert (a + b)[Taken(a)..] == a[Taken(a)..] + b;
      CompleteAppend(a[Taken(a)..], b);
    }
  }

  lemma {:induction false} EncodedComplete(s: string)
    requires Bytes(s)
    ensures Complete(Encode(s))
  {
    if s != "" {
      EncodedComplete(s[1..]);
      HexRoundTrip(s[0]);
      hide HexDigit, HexByte, Unreserved;
      var t := Encode(s);
      assert t[|EncodeByte(s[0])|..] == Encode(s[1..]);
    }
  }
}

// Hexadecimal text (RFC 4648, section 8, in lower case) and the canonical text of a uuid.
module Hex {
  import opened Results

  type byte = bv8

  const MAX_BINARY_SIZE: nat := 2147483647

  // ---------- digits ----------

  function Digit(n: byte): byte { n + (if n < 10 then 48 else 87) }

  /** 0-9, a-f, A-F. */
  predicate IsHex(c: byte) { 48 <= c <= 57 || 97 <= c <= 102 || 65 <= c <= 70 }

  function DigitValue(c: byte): byte { if c <= 57 then c - 48 else if c <= 70 then c - 55 else c - 87 }

  /** The branchless nibble: the low four bits, and nine more where bit 6 says letter. */
  function Nibble(c: byte): byte { (c & 0x0F) + 9 * (c >> 6) }

  /** The branchless test: a digit, or a letter once bit 5 is cleared. Bytes wrap at 256. */
  predicate Passes(c: byte) { c - 48 <= 9 || (c & 0xDF) - 65 <= 5 }

  lemma BranchlessDigit(c: byte)
    ensures Passes(c) <==> IsHex(c)
    ensures IsHex(c) ==> Nibble(c) == DigitValue(c) < 16
  {
  }

  function Pair(b: byte): seq<byte> { [Digit(b >> 4), Digit(b & 0x0F)] }

  function Joined(high: byte, low: byte): byte { (Nibble(high) << 4) | Nibble(low) }

  lemma PairBack(b: byte)
    ensures IsHex(Digit(b >> 4)) && IsHex(Digit(b & 0x0F)) && Joined(Digit(b >> 4), Digit(b & 0x0F)) == b
  {
  }

  // ---------- the digits of RFC 4648, table 5, in both cases ----------

  lemma SameOrder(v: byte, w: byte)
    ensures v < w <==> (v as int) < w as int
    ensures v == w <==> v as int == w as int
  {
  }

  /** The character codes of the digits. */
  lemma DigitCodes(n: nat)
    requires n < 16
    ensures "0123456789abcdef"[n] as int == if n < 10 then n + 48 else n + 87
    ensures "0123456789ABCDEF"[n] as int == if n < 10 then n + 48 else n + 55
  {
  }

  lemma Sums(n: byte)
    requires n < 16
    ensures (n + 48) as int == n as int + 48 && (n + 87) as int == n as int + 87
  {
  }

  /** Sixteen digits, written in lower case. */
  lemma DigitIsLower(n: byte)
    requires n < 16
    ensures n as int < 16 && Digit(n) as int == "0123456789abcdef"[n as int] as int
  {
    SameOrder(n, 16); SameOrder(n, 10);
    Sums(n);
    DigitCodes(n as int);
  }

  lemma Differences(c: byte)
    ensures c >= 48 ==> (c - 48) as int == c as int - 48
    ensures c >= 55 ==> (c - 55) as int == c as int - 55
    ensures c >= 87 ==> (c - 87) as int == c as int - 87
  {
  }

  /** Read in either case: a digit is what stands in one of the two rows, and its value is its place. */
  lemma ValueIsPlace(c: byte)
    ensures IsHex(c) ==>
              var n := DigitValue(c) as int;
              n < 16 && (c as int == "0123456789abcdef"[n] as int || c as int == "0123456789ABCDEF"[n] as int)
    ensures forall n: nat :: n < 16 && (c as int == "0123456789abcdef"[n] as int || c as int == "0123456789ABCDEF"[n] as int)
              ==> IsHex(c)
  {
    InRanges(c);
    Differences(c);
    if IsHex(c) { DigitCodes(DigitValue(c) as int); }
    forall n: nat | n < 16 && (c as int == "0123456789abcdef"[n] as int || c as int == "0123456789ABCDEF"[n] as int)
      ensures IsHex(c)
    {
      DigitCodes(n);
    }
  }

  lemma InRanges(c: byte)
    ensures IsHex(c) <==> 48 <= c as int <= 57 || 97 <= c as int <= 102 || 65 <= c as int <= 70
    ensures c <= 57 <==> c as int <= 57
    ensures c <= 70 <==> c as int <= 70
  {
    SameOrder(c, 48); SameOrder(57, c); SameOrder(c, 97); SameOrder(102, c); SameOrder(c, 65); SameOrder(70, c);
  }

  /** The first digit is the sixteens, the second the ones. */
  lemma HighFirst(b: byte, high: byte, low: byte)
    ensures Pair(b) == [Digit(b / 16), Digit(b % 16)]
    ensures IsHex(high) && IsHex(low) ==> Joined(high, low) == DigitValue(high) * 16 + DigitValue(low)
  {
    BranchlessDigit(high);
    BranchlessDigit(low);
    hide Digit, IsHex, DigitValue, Nibble, Passes;
    Shifted(b, Nibble(high), Nibble(low));
  }

  lemma Shifted(b: byte, h: byte, l: byte)
    ensures b >> 4 == b / 16 && b & 0x0F == b % 16
    ensures h < 16 && l < 16 ==> (h << 4) | l == h * 16 + l
  {
  }

  // ---------- texts ----------

  function Encoded(s: seq<byte>): (r: seq<byte>)
    ensures |r| == 2 * |s|
  {
    if s == [] then [] else Pair(s[0]) + Encoded(s[1..])
  }

  ghost predicate AllHex(s: seq<byte>) { forall i :: 0 <= i < |s| ==> IsHex(s[i]) }

  /** The bytes a text of hexadecimal digits spells. */
  function Bytes(s: seq<byte>): (r: seq<byte>)
    ensures |r| == |s| / 2
  {
    if |s| < 2 then [] else [Joined(s[0], s[1])] + Bytes(s[2..])
  }

  lemma PairFirst(a: byte, b: byte, rest: seq<byte>)
    ensures Bytes([a, b] + rest) == [Joined(a, b)] + Bytes(rest)
    ensures AllHex([a, b] + rest) <==> IsHex(a) && IsHex(b) && AllHex(rest)
  {
    hide Joined, IsHex;
    var s := [a, b] + rest;
    assert s[2..] == rest && s[0] == a && s[1] == b;
    assert forall i :: 0 <= i < |rest| ==> s[i + 2] == rest[i];
    assert forall i :: 2 <= i < |s| ==> s[i] == rest[i - 2];
  }

  lemma OneBack(b: byte, rest: seq<byte>)
    ensures Bytes(Pair(b) + rest) == [b] + Bytes(rest)
    ensures AllHex(Pair(b) + rest) <==> AllHex(rest)
  {
    hide Digit, IsHex, Joined, Bytes, AllHex;
    PairBack(b);
    PairFirst(Digit(b >> 4), Digit(b & 0x0F), rest);
  }

  /** Every text of bytes is read back as those bytes. */
  lemma {:induction false} RoundTrip(s: seq<byte>)
    ensures AllHex(Encoded(s)) && Bytes(Encoded(s)) == s
  {
    hide Pair, Bytes, AllHex;
    if s == [] {
      NothingEncoded();
    } else {
      RoundTrip(s[1..]);
      OneBack(s[0], Encoded(s[1..]));
    }
  }

  lemma {:induction false} BytesAppended(s: seq<byte>, a: byte, b: byte)
    requires |s| % 2 == 0
    ensures Bytes(s + [a, b]) == Bytes(s) + [Joined(a, b)]
  {
    hide Joined;
    if s == [] {
      assert s + [a, b] == [a, b];
      assert Bytes([a, b][2..]) == [];
    } else {
      assert (s + [a, b])[2..] == s[2..] + [a, b];
      BytesAppended(s[2..], a, b);
    }
  }

  lemma {:induction false} EncodedAppended(s: seq<byte>, b: byte)
    ensures Encoded(s + [b]) == Encoded(s) + Pair(b)
  {
    hide Pair;
    if s == [] {
      assert s + [b] == [b];
      assert Encoded([b]) == Pair(b) + Encoded([]) == Pair(b);
    } else {
      assert (s + [b])[1..] == s[1..] + [b];
      EncodedAppended(s[1..], b);
    }
  }

  /** `arnm_binary_to_hex` */
  method ToHex(out: array<byte>, bytes: seq<byte>) returns (result: Result)
    requires |bytes| <= MAX_BINARY_SIZE ==> out.Length > 2 * |bytes|
    modifies out
    ensures |bytes| > MAX_BINARY_SIZE ==> result.ArithmeticOverflow? && out[..] == old(out[..])
    ensures result.Success? <==> 2 * |bytes| < 0xffff_ffff
    ensures |bytes| <= MAX_BINARY_SIZE ==>
              result.Success? && out[..2 * |bytes|] == Encoded(bytes) && out[2 * |bytes|] == 0
    ensures forall j :: 2 * |bytes| < j < out.Length ==> out[j] == old(out[j])
  {
    hide Digit, Encoded;
    if |bytes| > MAX_BINARY_SIZE { return ArithmeticOverflow; }
    var i: nat := 0;
    assert bytes[..0] == [] && out[..0] == [];
    NothingEncoded();
    while i < |bytes|
      invariant i <= |bytes| && out[..2 * i] == Encoded(bytes[..i])
      invariant forall j :: 2 * |bytes| < j < out.Length ==> out[j] == old(out[j])
    {
      EncodedAppended(bytes[..i], bytes[i]);
      assert bytes[..i + 1] == bytes[..i] + [bytes[i]];
      ghost var done := out[..2 * i];
      out[2 * i] := Digit(bytes[i] >> 4);
      out[2 * i + 1] := Digit(bytes[i] & 0x0F);
      assert out[..2 * (i + 1)] == done + Pair(bytes[i]);
      i := i + 1;
    }
    assert bytes[..i] == bytes;
    out[2 * |bytes|] := 0;
    result := Success;
  }

  lemma NothingEncoded()
    ensures Encoded([]) == [] && Bytes([]) == [] && AllHex([])
  {
  }

  /** `arnm_binary_from_hex`: accepted if and only if the length is even and every character a digit. */
  method FromHex(out: array<byte>, text: seq<byte>) returns (result: Result)
    requires out.Length >= |text| / 2
    modifies out
    ensures |text| % 2 != 0 ==> result.InvalidParam? && out[..] == old(out[..])
    ensures |text| % 2 == 0 ==> (result.Success? <==> AllHex(text))
    ensures result.Success? ==> out[..|text| / 2] == Bytes(text)
    ensures |text| % 2 == 0 && !AllHex(text) ==> result.DecodeFailed? && forall j :: 0 <= j < |text| / 2 ==> out[j] == 0
    ensures forall j :: |text| / 2 <= j < out.Length ==> out[j] == old(out[j])
  {
    hide Joined, IsHex, Passes, Nibble, Bytes;
    var size := |text| / 2;
    if size * 2 != |text| { return InvalidParam; }
    var invalid := false;
    var i: nat := 0;
    assert text[..0] == [] && out[..0] == [];
    NothingEncoded();
    while i < size
      invariant i <= size && (invalid <==> !AllHex(text[..2 * i]))
      invariant out[..i] == Bytes(text[..2 * i])
      invariant forall j :: size <= j < out.Length ==> out[j] == old(out[j])
    {
      var high, low := text[2 * i], text[2 * i + 1];
      BranchlessDigit(high); BranchlessDigit(low);
      assert text[..2 * (i + 1)] == text[..2 * i] + [high, low];
      HexJoins(text[..2 * i], high, low);
      BytesAppended(text[..2 * i], high, low);
      invalid := invalid || !Passes(high) || !Passes(low);
      out[i] := Joined(high, low);
      i := i + 1;
    }
    assert text[..2 * i] == text;
    if invalid {
      i := 0;
      while i < size
        invariant i <= size && forall j :: 0 <= j < i ==> out[j] == 0
        invariant forall j :: size <= j < out.Length ==> out[j] == old(out[j])
      {
        out[i] := 0;
        i := i + 1;
      }
      return DecodeFailed;
    }
    result := Success;
  }

  lemma HexJoins(s: seq<byte>, a: byte, b: byte)
    ensures AllHex(s + [a, b]) <==> AllHex(s) && IsHex(a) && IsHex(b)
  {
    hide IsHex;
    var r := s + [a, b];
    assert r[|s|] == a && r[|s| + 1] == b && forall i :: 0 <= i < |s| ==> r[i] == s[i];
  }

  // ---------- uuids ----------

  const DASH: byte := 45

  /** 32 digits with a dash behind the 8th, 12th, 16th and 20th. */
  function Dashed(h: seq<byte>): (t: seq<byte>)
    requires |h| == 32
    ensures |t| == 36
  {
    h[..8] + [DASH] + h[8..12] + [DASH] + h[12..16] + [DASH] + h[16..20] + [DASH] + h[20..]
  }

  /** The digits of a text of that form. */
  function Undashed(t: seq<byte>): (h: seq<byte>)
    requires |t| == 36
    ensures |h| == 32
  {
    t[..8] + t[9..13] + t[14..18] + t[19..23] + t[24..]
  }

  predicate DashesInPlace(t: seq<byte>)
    requires |t| == 36
  {
    t[8] == DASH && t[13] == DASH && t[18] == DASH && t[23] == DASH
  }

  /** Taking the dashes out undoes putting them in, and the other way round where they are in place. */
  lemma DashesBack(h: seq<byte>, t: seq<byte>)
    requires |h| == 32 && |t| == 36
    ensures DashesInPlace(Dashed(h)) && Undashed(Dashed(h)) == h
    ensures DashesInPlace(t) ==> Dashed(Undashed(t)) == t
  {
    var d, u := Dashed(h), Undashed(t);
    assert d[..8] == h[..8] && d[9..13] == h[8..12] && d[14..18] == h[12..16] && d[19..23] == h[16..20] && d[24..] == h[20..];
    assert h == h[..8] + h[8..12] + h[12..16] + h[16..20] + h[20..];
    assert u[..8] == t[..8] && u[8..12] == t[9..13] && u[12..16] == t[14..18] && u[16..20] == t[19..23] && u[20..] == t[24..];
    assert t == t[..8] + [t[8]] + t[9..13] + [t[13]] + t[14..18] + [t[18]] + t[19..23] + [t[23]] + t[24..];
  }

  lemma InParts(t: seq<byte>, h: seq<byte>)
    requires |t| == 36 && |h| == 32 && DashesInPlace(t)
    requires forall j :: 0 <= j < 8 ==> t[j] == h[j]
    requires forall j :: 9 <= j < 13 ==> t[j] == h[j - 1]
    requires forall j :: 14 <= j < 18 ==> t[j] == h[j - 2]
    requires forall j :: 19 <= j < 23 ==> t[j] == h[j - 3]
    requires forall j :: 24 <= j < 36 ==> t[j] == h[j - 4]
    ensures t == Dashed(h)
  {
  }

  /** `memcpy` of `count` characters. */
  method CopyPart(out: array<byte>, at: nat, hex: array<byte>, from: nat, count: nat)
    requires out != hex && at + count <= out.Length && from + count <= hex.Length
    modifies out
    ensures forall j :: at <= j < at + count ==> out[j] == hex[j - at + from]
    ensures forall j :: 0 <= j < at || at + count <= j < out.Length ==> out[j] == old(out[j])
  {
    var i: nat := 0;
    while i < count
      invariant i <= count && forall j :: at <= j < at + i ==> out[j] == hex[j - at + from]
      invariant forall j :: 0 <= j < at || at + count <= j < out.Length ==> out[j] == old(out[j])
    {
      out[at + i] := hex[from + i];
      i := i + 1;
    }
  }

  /** The five parts of the text, between the dashes. */
  method WriteParts(out: array<byte>, hex: array<byte>)
    requires out.Length >= 37 && hex.Length >= 32 && out != hex
    modifies out
    ensures forall j :: 0 <= j < 8 ==> out[j] == hex[j]
    ensures forall j :: 9 <= j < 13 ==> out[j] == hex[j - 1]
    ensures forall j :: 14 <= j < 18 ==> out[j] == hex[j - 2]
    ensures forall j :: 19 <= j < 23 ==> out[j] == hex[j - 3]
    ensures forall j :: 24 <= j < 36 ==> out[j] == hex[j - 4]
    ensures forall j :: 36 <= j < out.Length ==> out[j] == old(out[j])
  {
    CopyPart(out, 0, hex, 0, 8);
    CopyPart(out, 9, hex, 8, 4);
    CopyPart(out, 14, hex, 12, 4);
    CopyPart(out, 19, hex, 16, 4);
    CopyPart(out, 24, hex, 20, 12);
  }

  /** `arnm_uuid_to_string`: 36 characters and the terminator. */
  method UuidToString(out: array<byte>, uuid: seq<byte>)
    requires |uuid| == 16 && out.Length >= 37
    modifies out
    ensures out[..36] == Dashed(Encoded(uuid)) && out[36] == 0
    ensures out[8] == out[13] == out[18] == out[23] == 45
    ensures forall j :: 37 <= j < out.Length ==> out[j] == old(out[j])
  {
    hide Encoded, Dashed;
    var hex := new byte[33];
    var result := ToHex(hex, uuid);
    WriteParts(out, hex);
    out[8], out[13], out[18], out[23] := DASH, DASH, DASH, DASH;
    out[36] := 0;
    InParts(out[..36], hex[..32]);
  }

  /** `arnm_uuid_from_string`: 36 characters, the dashes in place, everything else a digit. */
  method UuidFromString(out: array<byte>, text: seq<byte>) returns (result: Result)
    requires out.Length == 16
    modifies out
    ensures |text| != 36 ==> result.InvalidParam? && out[..] == old(out[..])
    ensures |text| == 36 ==>
              (result.Success? <==> text[8] == text[13] == text[18] == text[23] == 45 && AllHex(Undashed(text)))
    ensures result.Success? ==> out[..] == Bytes(Undashed(text))
    ensures |text| == 36 && !result.Success? ==> result.DecodeFailed? && forall j :: 0 <= j < 16 ==> out[j] == 0
  {
    hide AllHex, Bytes;
    if |text| != 36 { return InvalidParam; }
    if !DashesInPlace(text) {
      var i := 0;
      while i < 16
        invariant 0 <= i <= 16 && forall j :: 0 <= j < i ==> out[j] == 0
      {
        out[i] := 0;
        i := i + 1;
      }
      return DecodeFailed;
    }
    result := FromHex(out, Undashed(text));
    assert out[..16] == out[..];
  }

  /** The text written for a uuid is accepted and read back as that uuid. */
  lemma UuidRoundTrip(uuid: seq<byte>)
    requires |uuid| == 16
    ensures var t := Dashed(Encoded(uuid));
            DashesInPlace(t) && AllHex(Undashed(t)) && Bytes(Undashed(t)) == uuid
  {
    RoundTrip(uuid);
    DashesBack(Encoded(uuid), Dashed(Encoded(uuid)));
  }
}

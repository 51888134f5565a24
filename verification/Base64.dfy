// Base64 with padding (RFC 4648, section 4): three bytes as four letters, the last group padded.
module Base64 {
  import opened Results

  type byte = bv8

  const PAD: byte := 61
  const NO_VALUE: byte := 255
  const UINT32_MAX: nat := 0xffff_ffff
  const MAX_BINARY_SIZE: nat := (UINT32_MAX - 1) / 4 * 3

  // ---------- the alphabet ----------

  /** `BASE64_ALPHABET` as a function on the values below 64. */
  function Letter(v: byte): byte {
    if v < 26 then v + 65 else if v < 52 then v + 71 else if v < 62 then v - 4 else if v == 62 then 43 else 47
  }

  /** `BASE64_VALUE`: `Letter` undone, and NO_VALUE on every byte that is no letter. */
  function Value(c: byte): byte {
    if 65 <= c <= 90 then c - 65
    else if 97 <= c <= 122 then c - 71
    else if 48 <= c <= 57 then c + 4
    else if c == 43 then 62
    else if c == 47 then 63
    else NO_VALUE
  }

  predicate IsLetter(c: byte) { Value(c) != NO_VALUE }

  /** The 64 letters of RFC 4648, table 1, in the order of their values. */
  const ALPHABET: string := "ABCDEFGHIJKLMNOPQRSTUVWXYZ" + "abcdefghijklmnopqrstuvwxyz" + "0123456789+/"

  lemma Uppers(n: nat)
    requires n < 26
    ensures "ABCDEFGHIJKLMNOPQRSTUVWXYZ"[n] as int == n + 65
  {
  }

  lemma Lowers(n: nat)
    requires n < 26
    ensures "abcdefghijklmnopqrstuvwxyz"[n] as int == n + 97
  {
  }

  lemma Others(n: nat)
    requires n < 12
    ensures "0123456789+/"[n] as int == if n < 10 then n + 48 else if n == 10 then 43 else 47
  {
  }

  lemma Spliced(a: string, b: string, c: string, n: nat)
    requires |a| == |b| == 26 && n < 52 + |c|
    ensures (a + b + c)[n] == if n < 26 then a[n] else if n < 52 then b[n - 26] else c[n - 52]
  {
  }

  lemma Lengths()
    ensures |"ABCDEFGHIJKLMNOPQRSTUVWXYZ"| == |"abcdefghijklmnopqrstuvwxyz"| == 26 && |"0123456789+/"| == 12
  {
  }

  lemma AlphabetAt(n: nat)
    requires n < 64
    ensures |ALPHABET| == 64
    ensures ALPHABET[n] as int
         == if n < 26 then n + 65 else if n < 52 then n + 71 else if n < 62 then n - 4 else if n == 62 then 43 else 47
  {
    Lengths();
    Spliced("ABCDEFGHIJKLMNOPQRSTUVWXYZ", "abcdefghijklmnopqrstuvwxyz", "0123456789+/", n);
    if n < 26 { Uppers(n); } else if n < 52 { Lowers(n - 26); } else { Others(n - 52); }
  }

  /** Small sums of bytes are sums of numbers. */
  lemma Sums(v: byte)
    requires v < 64
    ensures v < 26 ==> (v + 65) as int == v as int + 65
    ensures v < 52 ==> (v + 71) as int == v as int + 71
    ensures 4 <= v ==> (v - 4) as int == v as int - 4
  {
  }

  lemma SameOrder(v: byte, w: byte)
    ensures v < w <==> (v as int) < w as int
    ensures v == w <==> v as int == w as int
  {
  }

  /** `Letter` is the alphabet, letter by letter. */
  lemma LetterIsAlphabet(v: byte)
    requires v < 64
    ensures |ALPHABET| == 64 && v as int < 64 && Letter(v) as int == ALPHABET[v as int] as int
  {
    SameOrder(v, 64); SameOrder(v, 26); SameOrder(v, 52); SameOrder(v, 62);
    Sums(v);
    AlphabetAt(v as int);
  }

  /** A byte is a letter if and only if the alphabet has it. */
  lemma LettersOfAlphabet(c: byte)
    ensures |ALPHABET| == 64 && (IsLetter(c) <==> exists n: nat :: n < 64 && ALPHABET[n] as int == c as int)
    ensures PAD as int == '=' as int
  {
    hide Letter, Value, IsLetter;
    AlphabetAt(0);
    LetterRanges(c);
    if IsLetter(c) {
      var n := CodeAt(c as int);
      AlphabetAt(n);
    }
    if n: nat :| n < 64 && ALPHABET[n] as int == c as int { AlphabetAt(n); }
  }

  /** The place of a letter among the 64. */
  function CodeAt(code: nat): (n: nat)
    requires 65 <= code <= 90 || 97 <= code <= 122 || 48 <= code <= 57 || code == 43 || code == 47
    ensures n < 64
  {
    if code == 43 then 62 else if code == 47 then 63 else if code <= 57 then code + 4
    else if code <= 90 then code - 65 else code - 71
  }

  lemma LetterRanges(c: byte)
    ensures IsLetter(c) <==>
              65 <= c as int <= 90 || 97 <= c as int <= 122 || 48 <= c as int <= 57 || c as int == 43 || c as int == 47
  {
    SameOrder(c, 65); SameOrder(90, c); SameOrder(c, 97); SameOrder(122, c); SameOrder(c, 48); SameOrder(57, c);
    SameOrder(c, 43); SameOrder(c, 47);
  }

  lemma LetterValue(v: byte)
    requires v < 64
    ensures Value(Letter(v)) == v && IsLetter(Letter(v)) && Letter(v) != PAD
  {
  }

  lemma ValueLetter(c: byte)
    ensures IsLetter(c) ==> Value(c) < 64 && Letter(Value(c)) == c
    ensures !IsLetter(PAD)
  {
  }

  // ---------- groups ----------

  function Join(a: byte, b: byte, c: byte): bv32 { ((a as bv32) << 16) | ((b as bv32) << 8) | (c as bv32) }

  function Six0(g: bv32): byte { ((g >> 18) & 0x3F) as byte }
  function Six1(g: bv32): byte { ((g >> 12) & 0x3F) as byte }
  function Six2(g: bv32): byte { ((g >> 6) & 0x3F) as byte }
  function Six3(g: bv32): byte { (g & 0x3F) as byte }

  function Gather(a: byte, b: byte, c: byte, d: byte): bv32 {
    ((a as bv32) << 18) | ((b as bv32) << 12) | ((c as bv32) << 6) | (d as bv32)
  }

  function High(g: bv32): byte { ((g >> 16) & 0xFF) as byte }
  function Middle(g: bv32): byte { ((g >> 8) & 0xFF) as byte }
  function Lowest(g: bv32): byte { (g & 0xFF) as byte }

  lemma SixBound(g: bv32)
    ensures Six0(g) < 64 && Six1(g) < 64 && Six2(g) < 64 && Six3(g) < 64
  {
  }

  lemma JoinBack(a: byte, b: byte, c: byte)
    ensures High(Join(a, b, c)) == a && Middle(Join(a, b, c)) == b && Lowest(Join(a, b, c)) == c
  {
  }

  lemma GatherBack(g: bv32)
    requires g <= 0xFF_FFFF
    ensures Gather(Six0(g), Six1(g), Six2(g), Six3(g)) == g
  {
  }

  lemma JoinBound(a: byte, b: byte, c: byte)
    ensures Join(a, b, c) <= 0xFF_FFFF
    ensures Six3(Join(a, b, 0)) == 0 && Six2(Join(a, 0, 0)) == 0 && Six3(Join(a, 0, 0)) == 0
  {
  }

  /** Three bytes and the four values made of them spell one number, in base 256 and in base 64. */
  lemma BaseChange(a: byte, b: byte, c: byte)
    ensures var g := Join(a, b, c);
            (a as bv32) * 0x1_0000 + (b as bv32) * 0x100 + (c as bv32)
            == (Six0(g) as bv32) * 0x4_0000 + (Six1(g) as bv32) * 0x1000 + (Six2(g) as bv32) * 0x40 + (Six3(g) as bv32)
  {
  }

  /** And so do four values and the three bytes read from them. */
  lemma BaseBack(a: byte, b: byte, c: byte, d: byte)
    requires a < 64 && b < 64 && c < 64 && d < 64
    ensures var g := Gather(a, b, c, d);
            (a as bv32) * 0x4_0000 + (b as bv32) * 0x1000 + (c as bv32) * 0x40 + (d as bv32)
            == (High(g) as bv32) * 0x1_0000 + (Middle(g) as bv32) * 0x100 + (Lowest(g) as bv32)
  {
  }

  /** Four groups of six bits put together again give the three bytes. */
  lemma GroupRoundTrip(a: byte, b: byte, c: byte)
    ensures var g := Join(a, b, c);
            var h := Gather(Six0(g), Six1(g), Six2(g), Six3(g));
            High(h) == a && Middle(h) == b && Lowest(h) == c
    ensures var g := Join(a, b, 0);
            var h := Gather(Six0(g), Six1(g), Six2(g), 0);
            High(h) == a && Middle(h) == b
    ensures var g := Join(a, 0, 0);
            High(Gather(Six0(g), Six1(g), 0, 0)) == a
  {
    hide Join, Six0, Six1, Six2, Six3, Gather, High, Middle, Lowest;
    JoinBound(a, b, c); JoinBound(a, b, 0); JoinBound(a, 0, 0);
    JoinBack(a, b, c); JoinBack(a, b, 0); JoinBack(a, 0, 0);
    GatherBack(Join(a, b, c)); GatherBack(Join(a, b, 0)); GatherBack(Join(a, 0, 0));
  }

  // ---------- the encoding ----------

  function EncodeGroup(a: byte, b: byte, c: byte): seq<byte> {
    var g := Join(a, b, c);
    [Letter(Six0(g)), Letter(Six1(g)), Letter(Six2(g)), Letter(Six3(g))]
  }

  function EncodeRest(s: seq<byte>): (r: seq<byte>)
    requires |s| < 3
    ensures |r| == if s == [] then 0 else 4
  {
    if |s| == 0 then []
    else if |s| == 1 then
      var g := Join(s[0], 0, 0);
      [Letter(Six0(g)), Letter(Six1(g)), PAD, PAD]
    else
      var g := Join(s[0], s[1], 0);
      [Letter(Six0(g)), Letter(Six1(g)), Letter(Six2(g)), PAD]
  }

  function Encoded(s: seq<byte>): (r: seq<byte>)
    ensures |r| == (|s| + 2) / 3 * 4
  {
    if |s| < 3 then EncodeRest(s) else EncodeGroup(s[0], s[1], s[2]) + Encoded(s[3..])
  }

  // ---------- the decoding ----------

  function Triple(a: byte, b: byte, c: byte, d: byte): seq<byte> {
    var g := Gather(Value(a), Value(b), Value(c), Value(d));
    [High(g), Middle(g), Lowest(g)]
  }

  /** The last group: only its last two places may be padded. */
  function DecodeLast(a: byte, b: byte, c: byte, d: byte): Option<seq<byte>> {
    if !IsLetter(a) || !IsLetter(b) then None
    else if IsLetter(c) && IsLetter(d) then Some(Triple(a, b, c, d))
    else if IsLetter(c) && d == PAD then
      var g := Gather(Value(a), Value(b), Value(c), 0);
      Some([High(g), Middle(g)])
    else if c == PAD && d == PAD then Some([High(Gather(Value(a), Value(b), 0, 0))])
    else None
  }

  function Prefixed(p: seq<byte>, r: Option<seq<byte>>): Option<seq<byte>> {
    match r
    case None => None
    case Some(b) => Some(p + b)
  }

  /** What a text stands for, if it is base64. */
  function Decoded(s: seq<byte>): Option<seq<byte>> {
    if |s| == 0 then Some([])
    else if |s| < 4 then None
    else if |s| == 4 then DecodeLast(s[0], s[1], s[2], s[3])
    else if IsLetter(s[0]) && IsLetter(s[1]) && IsLetter(s[2]) && IsLetter(s[3]) then
      Prefixed(Triple(s[0], s[1], s[2], s[3]), Decoded(s[4..]))
    else None
  }

  lemma GroupBack(a: byte, b: byte, c: byte)
    ensures var e := EncodeGroup(a, b, c);
            IsLetter(e[0]) && IsLetter(e[1]) && IsLetter(e[2]) && IsLetter(e[3]) && Triple(e[0], e[1], e[2], e[3]) == [a, b, c]
  {
    hide Join, Six0, Six1, Six2, Six3, Gather, High, Middle, Lowest, Letter, Value;
    var g := Join(a, b, c);
    SixBound(g);
    LetterValue(Six0(g)); LetterValue(Six1(g)); LetterValue(Six2(g)); LetterValue(Six3(g));
    GroupRoundTrip(a, b, c);
  }

  lemma RestBack(s: seq<byte>)
    requires |s| < 3
    ensures Decoded(EncodeRest(s)) == Some(s)
  {
    hide Join, Six0, Six1, Six2, Six3, Gather, High, Middle, Lowest, Letter, Value;
    if |s| == 0 {
      assert s == [];
    } else if |s| == 1 {
      var g := Join(s[0], 0, 0);
      SixBound(g);
      LetterValue(Six0(g)); LetterValue(Six1(g));
      ValueLetter(PAD);
      GroupRoundTrip(s[0], 0, 0);
      assert s == [s[0]];
    } else if |s| == 2 {
      var g := Join(s[0], s[1], 0);
      SixBound(g);
      LetterValue(Six0(g)); LetterValue(Six1(g)); LetterValue(Six2(g));
      ValueLetter(PAD);
      GroupRoundTrip(s[0], s[1], 0);
      assert s == [s[0], s[1]];
    }
  }

  /** Decoding what was encoded gives the bytes back, whatever they are. */
  lemma {:induction false} RoundTrip(s: seq<byte>)
    ensures Decoded(Encoded(s)) == Some(s)
  {
    hide EncodeGroup, EncodeRest, Triple, DecodeLast, IsLetter;
    if |s| < 3 {
      RestBack(s);
    } else {
      GroupBack(s[0], s[1], s[2]);
      var e, rest := EncodeGroup(s[0], s[1], s[2]), Encoded(s[3..]);
      assert |e| == 4 by { FourLetters(s[0], s[1], s[2]); }
      assert (e + rest)[4..] == rest;
      RoundTrip(s[3..]);
      assert s == [s[0], s[1], s[2]] + s[3..];
      if |s| == 3 {
        LastWhole(s[0], s[1], s[2]);
        assert rest == EncodeRest([]) && e + rest == e && s == [s[0], s[1], s[2]];
      }
    }
  }

  lemma FourLetters(a: byte, b: byte, c: byte)
    ensures |EncodeGroup(a, b, c)| == 4
  {
  }

  lemma LastWhole(a: byte, b: byte, c: byte)
    ensures var e := EncodeGroup(a, b, c); DecodeLast(e[0], e[1], e[2], e[3]) == Some([a, b, c])
  {
    hide EncodeGroup, Triple, IsLetter;
    GroupBack(a, b, c);
    FourLetters(a, b, c);
  }

  // ---------- what is accepted ----------

  /** Whole groups of letters, the last one or two of them, if any, replaced by padding. */
  ghost predicate Padded(s: seq<byte>, pad: nat) {
    |s| % 4 == 0 && pad <= 2 && pad <= |s|
    && (forall i :: 0 <= i < |s| - pad ==> IsLetter(s[i]))
    && (forall i :: |s| - pad <= i < |s| ==> s[i] == PAD)
  }

  lemma PaddedRest(s: seq<byte>, pad: nat)
    requires |s| > 4
    ensures Padded(s, pad) <==>
              IsLetter(s[0]) && IsLetter(s[1]) && IsLetter(s[2]) && IsLetter(s[3]) && Padded(s[4..], pad)
  {
    hide IsLetter;
    var t := s[4..];
    assert forall i :: 0 <= i < |t| ==> t[i] == s[i + 4];
    assert forall i :: 4 <= i < |s| ==> s[i] == t[i - 4];
  }

  /** The decoder accepts exactly the padded texts; the pad bits of the last letter may be anything. */
  lemma {:induction false} Accepts(s: seq<byte>)
    ensures Decoded(s).Some? <==> exists pad :: Padded(s, pad)
    ensures forall pad: nat :: Padded(s, pad) && Decoded(s).Some? ==> |Decoded(s).value| == |s| / 4 * 3 - pad
  {
    hide Value, Triple, IsLetter;
    ValueLetter(PAD);
    if |s| == 0 {
      assert Padded(s, 0);
    } else if |s| == 4 {
      AcceptsLast(s);
    } else if |s| > 4 {
      forall pad: nat { PaddedRest(s, pad); }
      Accepts(s[4..]);
      TripleSize(s[0], s[1], s[2], s[3]);
    }
  }

  lemma TripleSize(a: byte, b: byte, c: byte, d: byte)
    ensures |Triple(a, b, c, d)| == 3
  {
  }

  lemma AcceptsLast(s: seq<byte>)
    requires |s| == 4
    ensures Decoded(s).Some? <==> exists pad :: Padded(s, pad)
    ensures forall pad: nat :: Padded(s, pad) && Decoded(s).Some? ==> |Decoded(s).value| == 3 - pad
  {
    hide Value, Gather;
    ValueLetter(PAD);
    if DecodeLast(s[0], s[1], s[2], s[3]).Some? {
      if IsLetter(s[3]) { assert Padded(s, 0); } else if IsLetter(s[2]) { assert Padded(s, 1); } else { assert Padded(s, 2); }
    }
  }

  /** Two texts that differ in pad bits alone are read as the same byte. */
  lemma PadBitsIgnored()
    ensures Decoded([81, 81, PAD, PAD]) == Decoded([81, 82, PAD, PAD]) == Some([0x41])
  {
    assert Gather(16, 16, 0, 0) == 0x41_0000 && Gather(16, 17, 0, 0) == 0x41_1000;
  }

  /** The test vectors of RFC 4648, section 10, for one to three bytes, and one of the last two letters. */
  lemma Vectors()
    ensures Encoded([0x66]) == [90, 103, PAD, PAD] && Encoded([0x66, 0x6F]) == [90, 109, 56, PAD]
    ensures Encoded([0x66, 0x6F, 0x6F]) == [90, 109, 57, 118]
    ensures Encoded([0xFB, 0xEF, 0xBE]) == [43, 43, 43, 43] && Encoded([0xFF, 0xFF, 0xFF]) == [47, 47, 47, 47]
  {
    assert Encoded([0x66, 0x6F, 0x6F])[..4] == EncodeGroup(0x66, 0x6F, 0x6F);
    assert Encoded([0xFB, 0xEF, 0xBE])[..4] == EncodeGroup(0xFB, 0xEF, 0xBE);
    assert Encoded([0xFF, 0xFF, 0xFF])[..4] == EncodeGroup(0xFF, 0xFF, 0xFF);
  }

  // ---------- in buffers ----------

  lemma EncodedStep(s: seq<byte>, k: nat)
    requires 3 * k + 3 <= |s|
    ensures Encoded(s[3 * k..]) == EncodeGroup(s[3 * k], s[3 * k + 1], s[3 * k + 2]) + Encoded(s[3 * (k + 1)..])
  {
    hide EncodeGroup, EncodeRest;
    assert s[3 * k..][3..] == s[3 * (k + 1)..];
  }

  method WriteFour(out: array<byte>, at: nat, four: seq<byte>)
    requires |four| == 4 && at + 4 <= out.Length
    modifies out
    ensures out[..at + 4] == old(out[..at]) + four
    ensures forall j :: at + 4 <= j < out.Length ==> out[j] == old(out[j])
  {
    out[at] := four[0];
    out[at + 1] := four[1];
    out[at + 2] := four[2];
    out[at + 3] := four[3];
  }

  /** Whole groups, then the padded rest, then the terminator. */
  method WriteEncoded(out: array<byte>, bytes: seq<byte>)
    requires out.Length > (|bytes| + 2) / 3 * 4
    modifies out
    ensures out[..(|bytes| + 2) / 3 * 4] == Encoded(bytes) && out[(|bytes| + 2) / 3 * 4] == 0
    ensures forall j :: (|bytes| + 2) / 3 * 4 < j < out.Length ==> out[j] == old(out[j])
  {
    hide Join, Six0, Six1, Six2, Six3, Letter, Encoded, EncodeGroup, EncodeRest;
    var groups := |bytes| / 3;
    var k := 0;
    assert bytes[0..] == bytes;
    while k < groups
      invariant 0 <= k <= groups && out[..4 * k] + Encoded(bytes[3 * k..]) == Encoded(bytes)
      invariant forall j :: 4 * k <= j < out.Length ==> out[j] == old(out[j])
    {
      EncodedStep(bytes, k);
      FourLetters(bytes[3 * k], bytes[3 * k + 1], bytes[3 * k + 2]);
      Associates(out[..4 * k], EncodeGroup(bytes[3 * k], bytes[3 * k + 1], bytes[3 * k + 2]), Encoded(bytes[3 * (k + 1)..]));
      WriteFour(out, 4 * k, EncodeGroup(bytes[3 * k], bytes[3 * k + 1], bytes[3 * k + 2]));
      k := k + 1;
    }
    var written := groups * 4;
    var rest := bytes[3 * groups..];
    EncodedEnd(rest);
    if |rest| > 0 {
      WriteFour(out, written, EncodeRest(rest));
      written := written + 4;
    }
    out[written] := 0;
  }

  /** `arnm_binary_to_base64`: whole groups, then the rest padded, then the terminator. */
  method Encode(out: array<byte>, bytes: seq<byte>) returns (result: Result)
    requires |bytes| <= MAX_BINARY_SIZE ==> out.Length > (|bytes| + 2) / 3 * 4
    modifies out
    ensures |bytes| > MAX_BINARY_SIZE ==> result.ArithmeticOverflow? && out[..] == old(out[..])
    ensures |bytes| <= MAX_BINARY_SIZE ==>
              result.Success? && out[..(|bytes| + 2) / 3 * 4] == Encoded(bytes) && out[(|bytes| + 2) / 3 * 4] == 0
    ensures result.Success? <==> (|bytes| + 2) / 3 * 4 < UINT32_MAX
    ensures forall j :: (|bytes| + 2) / 3 * 4 < j < out.Length ==> out[j] == old(out[j])
  {
    GroupsFit(|bytes|);
    if |bytes| > MAX_BINARY_SIZE { return ArithmeticOverflow; }
    WriteEncoded(out, bytes);
    result := Success;
  }

  /** The characters and the terminator are counted in 32 bits. */
  lemma GroupsFit(size: nat)
    ensures size <= MAX_BINARY_SIZE <==> (size + 2) / 3 * 4 < UINT32_MAX
  {
  }

  lemma Associates(a: seq<byte>, b: seq<byte>, c: seq<byte>)
    ensures a + (b + c) == a + b + c
  {
  }

  lemma EncodedEnd(s: seq<byte>)
    requires |s| < 3
    ensures Encoded(s) == EncodeRest(s)
  {
  }

  /** `base64_padding`: how far a text falls short of three bytes per group. */
  function Padding(s: seq<byte>): (pad: nat)
    requires |s| >= 2
    ensures pad <= 2
  {
    if s[|s| - 1] != PAD then 0 else if s[|s| - 2] == PAD then 2 else 1
  }

  function ValueOrZero(c: byte): byte { if IsLetter(c) then Value(c) else 0 }

  /** One group read whole; only in the last one may the last two places be padding. */
  method ReadGroup(a: byte, b: byte, c: byte, d: byte, last: bool) returns (ok: bool, g: bv32)
    ensures ok <==> if last then DecodeLast(a, b, c, d).Some? else IsLetter(a) && IsLetter(b) && IsLetter(c) && IsLetter(d)
    ensures ok ==> g == Gather(ValueOrZero(a), ValueOrZero(b), ValueOrZero(c), ValueOrZero(d))
  {
    hide Gather, Value, High, Middle, Lowest;
    ValueLetter(PAD);
    g := 0;
    if !IsLetter(a) || !IsLetter(b) { return false, g; }
    if !IsLetter(c) && !(last && c == PAD && d == PAD) { return false, g; }
    if !IsLetter(d) && !(last && d == PAD) { return false, g; }
    ok := true;
    g := Gather(ValueOrZero(a), ValueOrZero(b), ValueOrZero(c), ValueOrZero(d));
  }

  /** The bytes a valid last group carries are as many as its padding leaves. */
  lemma LastBytes(s: seq<byte>, a: byte, b: byte, c: byte, d: byte)
    requires |s| >= 4 && a == s[|s| - 4] && b == s[|s| - 3] && c == s[|s| - 2] && d == s[|s| - 1]
    requires DecodeLast(a, b, c, d).Some?
    ensures var g := Gather(ValueOrZero(a), ValueOrZero(b), ValueOrZero(c), ValueOrZero(d));
            DecodeLast(a, b, c, d).value == [High(g), Middle(g), Lowest(g)][..3 - Padding(s)]
  {
    hide Gather, Value, High, Middle, Lowest;
    ValueLetter(PAD);
    var g := Gather(ValueOrZero(a), ValueOrZero(b), ValueOrZero(c), ValueOrZero(d));
    assert [High(g), Middle(g), Lowest(g)][..3] == [High(g), Middle(g), Lowest(g)];
    assert [High(g), Middle(g), Lowest(g)][..2] == [High(g), Middle(g)];
    assert [High(g), Middle(g), Lowest(g)][..1] == [High(g)];
  }

  lemma DecodedStep(s: seq<byte>, k: nat)
    requires 4 * k + 4 < |s|
    ensures var a, b, c, d := s[4 * k], s[4 * k + 1], s[4 * k + 2], s[4 * k + 3];
            Decoded(s[4 * k..])
            == if IsLetter(a) && IsLetter(b) && IsLetter(c) && IsLetter(d)
               then Prefixed(Triple(a, b, c, d), Decoded(s[4 * (k + 1)..])) else None
  {
    hide IsLetter, Triple;
    assert s[4 * k..][4..] == s[4 * (k + 1)..];
  }

  lemma DecodedEnd(s: seq<byte>, k: nat)
    requires 4 * k + 4 == |s|
    ensures Decoded(s[4 * k..]) == DecodeLast(s[4 * k], s[4 * k + 1], s[4 * k + 2], s[4 * k + 3])
  {
    hide DecodeLast;
  }

  lemma PrefixedTwice(p: seq<byte>, q: seq<byte>, r: Option<seq<byte>>)
    ensures Prefixed(p, Prefixed(q, r)) == Prefixed(p + q, r) && Prefixed([], r) == r
  {
    if r.Some? { assert p + (q + r.value) == (p + q) + r.value && [] + r.value == r.value; }
  }

  /** At most `size` bytes reach the buffer: a group's bytes that padding replaced are cut off. */
  method WriteBytes(out: array<byte>, at: nat, size: nat, bytes: seq<byte>) returns (o: nat)
    requires |bytes| == 3 && at <= size <= out.Length
    modifies out
    ensures o == (if at + 3 < size then at + 3 else size) && out[..o] == old(out[..at]) + bytes[..o - at]
    ensures forall j :: o <= j < out.Length ==> out[j] == old(out[j])
  {
    o := at;
    if o < size { out[o] := bytes[0]; o := o + 1; }
    if o < size { out[o] := bytes[1]; o := o + 1; }
    if o < size { out[o] := bytes[2]; o := o + 1; }
  }

  method ZeroOut(out: array<byte>, size: nat)
    requires size <= out.Length
    modifies out
    ensures forall j :: 0 <= j < size ==> out[j] == 0
    ensures forall j :: size <= j < out.Length ==> out[j] == old(out[j])
  {
    var o := 0;
    while o < size
      invariant 0 <= o <= size && forall j :: 0 <= j < o ==> out[j] == 0
      invariant forall j :: size <= j < out.Length ==> out[j] == old(out[j])
    {
      out[o] := 0;
      o := o + 1;
    }
  }

  /**
   * `base64_decode_into`. `out` and `text` may be one array: the contract speaks of the text as it
   * was on entry.
   */
  method DecodeInto(out: array<byte>, text: array<byte>, length: nat, size: nat) returns (result: Result)
    requires 4 <= length <= text.Length && length % 4 == 0 && size <= out.Length
    requires size == length / 4 * 3 - Padding(text[..length])
    modifies out
    ensures var d := Decoded(old(text[..length]));
            (d.Some? ==> result.Success? && out[..size] == d.value)
            && (d.None? ==> result.DecodeFailed? && forall j :: 0 <= j < size ==> out[j] == 0)
    ensures forall j :: size <= j < out.Length ==> out[j] == old(out[j])
  {
    hide Gather, Value, IsLetter, Triple, DecodeLast, Decoded, High, Middle, Lowest, Padding, ValueOrZero;
    ghost var was := text[..length];
    var groups := length / 4;
    var k: nat, o: nat := 0, 0;
    assert was[0..] == was && out[..0] == [];
    PrefixedTwice([], [], Decoded(was));
    while k < groups
      invariant k <= groups && o == (if k < groups then 3 * k else size)
      invariant forall j :: 4 * k <= j < length ==> text[j] == was[j]
      invariant forall j :: size <= j < out.Length ==> out[j] == old(out[j])
      invariant Decoded(was) == if k < groups then Prefixed(out[..o], Decoded(was[4 * k..])) else Some(out[..o])
    {
      var i := 4 * k;
      var a, b, c, d := text[i], text[i + 1], text[i + 2], text[i + 3];
      var last := k + 1 == groups;
      var ok, g := ReadGroup(a, b, c, d, last);
      GroupDecoded(was, k, last, ok, g, out[..o]);
      if !ok {
        ZeroOut(out, size);
        return DecodeFailed;
      }
      o := WriteBytes(out, o, size, [High(g), Middle(g), Lowest(g)]);
      k := k + 1;
    }
    result := Success;
  }

  /** What one group adds to what was decoded before it. */
  lemma GroupDecoded(s: seq<byte>, k: nat, last: bool, ok: bool, g: bv32, done: seq<byte>)
    requires 4 * k + 4 <= |s| && (last <==> 4 * k + 4 == |s|)
    requires var a, b, c, d := s[4 * k], s[4 * k + 1], s[4 * k + 2], s[4 * k + 3];
             (ok <==> if last then DecodeLast(a, b, c, d).Some? else IsLetter(a) && IsLetter(b) && IsLetter(c) && IsLetter(d))
             && (ok ==> g == Gather(ValueOrZero(a), ValueOrZero(b), ValueOrZero(c), ValueOrZero(d)))
    ensures var bytes := [High(g), Middle(g), Lowest(g)];
            Prefixed(done, Decoded(s[4 * k..]))
            == if !ok then None
               else if last then Some(done + bytes[..3 - Padding(s)])
               else Prefixed(done + bytes[..3], Decoded(s[4 * (k + 1)..]))
  {
    hide Gather, Value, IsLetter, Triple, DecodeLast, Decoded, High, Middle, Lowest, Padding, ValueOrZero;
    var a, b, c, d := s[4 * k], s[4 * k + 1], s[4 * k + 2], s[4 * k + 3];
    if last {
      DecodedEnd(s, k);
      if ok { LastBytes(s, a, b, c, d); }
    } else {
      DecodedStep(s, k);
      if ok {
        TripleBytes(a, b, c, d, g);
        PrefixedTwice(done, [High(g), Middle(g), Lowest(g)], Decoded(s[4 * (k + 1)..]));
      }
    }
  }

  lemma TripleBytes(a: byte, b: byte, c: byte, d: byte, g: bv32)
    requires IsLetter(a) && IsLetter(b) && IsLetter(c) && IsLetter(d)
    requires g == Gather(ValueOrZero(a), ValueOrZero(b), ValueOrZero(c), ValueOrZero(d))
    ensures Triple(a, b, c, d) == [High(g), Middle(g), Lowest(g)]
    ensures [High(g), Middle(g), Lowest(g)][..3] == [High(g), Middle(g), Lowest(g)]
  {
    hide Gather, Value, High, Middle, Lowest;
  }

  /** `arnm_binary_from_base64`; with one buffer for both, `arnm_binary_from_base64_insitu`. */
  method FromBase64(out: array<byte>, text: array<byte>, length: nat) returns (result: Result, size: nat)
    requires length <= text.Length && length / 4 * 3 <= out.Length
    modifies out
    ensures var was := old(text[..length]);
            if length % 4 != 0 then result.InvalidParam? && Decoded(was).None? && out[..] == old(out[..])
            else match Decoded(was)
                 case Some(bytes) => result.Success? && size == |bytes| <= out.Length && out[..size] == bytes
                 case None =>
                   length >= 4 && result.DecodeFailed?
                   && size == length / 4 * 3 - (if was[length - 1] != 61 then 0 else if was[length - 2] != 61 then 1 else 2)
                   && size <= out.Length && forall j :: 0 <= j < size ==> out[j] == 0
    ensures length % 4 == 0 ==> forall j :: size <= j < out.Length ==> out[j] == old(out[j])
  {
    hide Decoded, DecodeLast;
    size := 0;
    if length == 0 {
      NothingDecoded(text[..0]);
      return Success, 0;
    }
    if length % 4 != 0 {
      Uneven(text[..length]);
      return InvalidParam, 0;
    }
    size := length / 4 * 3 - Padding(text[..length]);
    ghost var was := text[..length];
    result := DecodeInto(out, text, length, size);
  }

  lemma NothingDecoded(s: seq<byte>)
    requires s == []
    ensures Decoded(s) == Some([])
  {
  }

  lemma {:induction false} Uneven(s: seq<byte>)
    requires |s| % 4 != 0
    ensures Decoded(s).None?
  {
    hide DecodeLast, Triple, IsLetter;
    if |s| > 4 { Uneven(s[4..]); }
  }

  /** Decoding in place gives the verdict and the bytes that decoding into another buffer gives. */
  method InSitu(text: array<byte>, length: nat) returns (result: Result, size: nat)
    requires length <= text.Length
    modifies text
    ensures var was := old(text[..length]);
            if length % 4 != 0 then result.InvalidParam? && Decoded(was).None? && text[..] == old(text[..])
            else match Decoded(was)
                 case Some(bytes) => result.Success? && size == |bytes| <= text.Length && text[..size] == bytes
                 case None =>
                   length >= 4 && result.DecodeFailed?
                   && size == length / 4 * 3 - (if was[length - 1] != 61 then 0 else if was[length - 2] != 61 then 1 else 2)
                   && size <= text.Length && forall j :: 0 <= j < size ==> text[j] == 0
    ensures length % 4 == 0 ==> forall j :: size <= j < text.Length ==> text[j] == old(text[j])
  {
    result, size := FromBase64(text, text, length);
  }
}

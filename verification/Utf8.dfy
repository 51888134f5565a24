// The UTF-8 validator, against the grammar of RFC 3629, section 4, and against encoding itself.
module Utf8 {
  type byte = bv8

  // ---------- what the standard says ----------

  predicate Tail(b: byte) { 0x80 <= b <= 0xBF }

  predicate Two(a: byte, b: byte) { 0xC2 <= a <= 0xDF && Tail(b) }

  predicate Three(a: byte, b: byte, c: byte) {
    Tail(c)
    && ((a == 0xE0 && 0xA0 <= b <= 0xBF) || (0xE1 <= a <= 0xEC && Tail(b)) || (a == 0xED && 0x80 <= b <= 0x9F)
        || (0xEE <= a <= 0xEF && Tail(b)))
  }

  predicate Four(a: byte, b: byte, c: byte, d: byte) {
    Tail(c) && Tail(d)
    && ((a == 0xF0 && 0x90 <= b <= 0xBF) || (0xF1 <= a <= 0xF3 && Tail(b)) || (a == 0xF4 && 0x80 <= b <= 0x8F))
  }

  /** UTF8-char: one, two, three or four bytes, by the productions of the grammar. */
  predicate IsChar(c: seq<byte>) {
    match |c|
    case 1 => c[0] <= 0x7F
    case 2 => Two(c[0], c[1])
    case 3 => Three(c[0], c[1], c[2])
    case 4 => Four(c[0], c[1], c[2], c[3])
    case _ => false
  }

  ghost function Flatten(cs: seq<seq<byte>>): seq<byte> { if cs == [] then [] else cs[0] + Flatten(cs[1..]) }

  ghost predicate AllChars(cs: seq<seq<byte>>) { forall i :: 0 <= i < |cs| ==> IsChar(cs[i]) }

  ghost predicate Spells(cs: seq<seq<byte>>, s: seq<byte>) { AllChars(cs) && Flatten(cs) == s }

  /** UTF8-octets: any number of characters, one after the other. */
  ghost predicate WellFormed(s: seq<byte>) { exists cs :: Spells(cs, s) }

  // ---------- characters and scalar values ----------

  /** The values section 3.9 of the Unicode standard allows a character to have. */
  predicate Scalar(v: bv32) { v <= 0xD7FF || 0xE000 <= v <= 0x10FFFF }

  function Cont(v: bv32): byte { (0x80 | (v & 0x3F)) as byte }
  function Lead2(v: bv32): byte { (0xC0 | ((v >> 6) & 0x1F)) as byte }
  function Lead3(v: bv32): byte { (0xE0 | ((v >> 12) & 0x0F)) as byte }
  function Lead4(v: bv32): byte { (0xF0 | ((v >> 18) & 0x07)) as byte }
  function Up6(v: bv32): bv32 { v >> 6 }
  function Up12(v: bv32): bv32 { v >> 12 }
  function Low(v: bv32): byte { (v & 0x7F) as byte }

  /** The encoding of RFC 3629, section 3: the value's bits spread over the bytes of its length. */
  function Encode(v: bv32): (c: seq<byte>)
    ensures 1 <= |c| <= 4
  {
    if v <= 0x7F then [Low(v)]
    else if v <= 0x7FF then [Lead2(v), Cont(v)]
    else if v <= 0xFFFF then [Lead3(v), Cont(Up6(v)), Cont(v)]
    else [Lead4(v), Cont(Up12(v)), Cont(Up6(v)), Cont(v)]
  }

  function Join2(a: byte, b: byte): bv32 { (((a & 0x1F) as bv32) << 6) | ((b & 0x3F) as bv32) }

  function Join3(a: byte, b: byte, c: byte): bv32 {
    (((a & 0x0F) as bv32) << 12) | (((b & 0x3F) as bv32) << 6) | ((c & 0x3F) as bv32)
  }

  function Join4(a: byte, b: byte, c: byte, d: byte): bv32 {
    (((a & 0x07) as bv32) << 18) | (((b & 0x3F) as bv32) << 12) | (((c & 0x3F) as bv32) << 6) | ((d & 0x3F) as bv32)
  }

  /** The bits of a character put back together. */
  function Decode(c: seq<byte>): bv32
    requires 1 <= |c| <= 4
  {
    match |c|
    case 1 => c[0] as bv32
    case 2 => Join2(c[0], c[1])
    case 3 => Join3(c[0], c[1], c[2])
    case _ => Join4(c[0], c[1], c[2], c[3])
  }

  lemma OneByte(v: bv32, a: byte)
    ensures v <= 0x7F ==> Low(v) <= 0x7F && Low(v) as bv32 == v
    ensures a <= 0x7F ==> a as bv32 <= 0x7F && Low(a as bv32) == a
  {
  }

  lemma TwoBytes(v: bv32, a: byte, b: byte)
    ensures 0x80 <= v <= 0x7FF ==> Two(Lead2(v), Cont(v)) && Join2(Lead2(v), Cont(v)) == v
    ensures Two(a, b) ==> 0x80 <= Join2(a, b) <= 0x7FF && Lead2(Join2(a, b)) == a && Cont(Join2(a, b)) == b
  {
  }

  lemma ThreeBytes(v: bv32)
    requires 0x800 <= v <= 0xFFFF && Scalar(v)
    ensures Three(Lead3(v), Cont(Up6(v)), Cont(v))
  {
  }

  lemma ThreeJoined(v: bv32)
    requires 0x800 <= v <= 0xFFFF
    ensures Join3(Lead3(v), Cont(Up6(v)), Cont(v)) == v
  {
  }

  lemma ThreeScalar(a: byte, b: byte, c: byte)
    requires Three(a, b, c)
    ensures 0x800 <= Join3(a, b, c) <= 0xFFFF && Scalar(Join3(a, b, c))
  {
  }

  lemma ThreeSplit(a: byte, b: byte, c: byte)
    requires 0xE0 <= a <= 0xEF && Tail(b) && Tail(c)
    ensures var j := Join3(a, b, c); Lead3(j) == a && Cont(Up6(j)) == b && Cont(j) == c
  {
  }

  lemma ThreeTails(a: byte, b: byte, c: byte)
    requires Three(a, b, c)
    ensures 0xE0 <= a <= 0xEF && Tail(b) && Tail(c)
  {
  }

  lemma FourBytes(v: bv32)
    requires 0x1_0000 <= v && Scalar(v)
    ensures Four(Lead4(v), Cont(Up12(v)), Cont(Up6(v)), Cont(v))
  {
  }

  lemma FourJoined(v: bv32)
    requires 0x1_0000 <= v <= 0x10FFFF
    ensures Join4(Lead4(v), Cont(Up12(v)), Cont(Up6(v)), Cont(v)) == v
  {
  }

  lemma FourScalar(a: byte, b: byte, c: byte, d: byte)
    requires Four(a, b, c, d)
    ensures 0x1_0000 <= Join4(a, b, c, d) <= 0x10FFFF
  {
  }

  lemma FourSplit(a: byte, b: byte, c: byte, d: byte)
    requires 0xF0 <= a <= 0xF7 && Tail(b) && Tail(c) && Tail(d)
    ensures var j := Join4(a, b, c, d); Lead4(j) == a && Cont(Up12(j)) == b && Cont(Up6(j)) == c && Cont(j) == d
  {
  }

  lemma FourTails(a: byte, b: byte, c: byte, d: byte)
    requires Four(a, b, c, d)
    ensures 0xF0 <= a <= 0xF7 && Tail(b) && Tail(c) && Tail(d)
  {
  }

  /** Every scalar value is encoded as a character of the grammar, and read back from it. */
  lemma EncodesScalar(v: bv32)
    requires Scalar(v)
    ensures IsChar(Encode(v)) && Decode(Encode(v)) == v
  {
    hide Low, Lead2, Lead3, Lead4, Cont, Up6, Up12, Join2, Join3, Join4, Two, Three, Four;
    OneByte(v, 0);
    TwoBytes(v, 0, 0);
    if 0x800 <= v <= 0xFFFF {
      ThreeBytes(v);
      ThreeJoined(v);
    } else if v > 0xFFFF {
      FourBytes(v);
      FourJoined(v);
    }
  }

  /** And every character of the grammar is the encoding of the scalar value read from it. */
  lemma DecodesChar(c: seq<byte>)
    requires IsChar(c)
    ensures Scalar(Decode(c)) && Encode(Decode(c)) == c
  {
    hide Low, Lead2, Lead3, Lead4, Cont, Up6, Up12, Join2, Join3, Join4, Two, Three, Four;
    match |c|
    case 1 => OneByte(0, c[0]);
    case 2 => TwoBytes(0, c[0], c[1]);
    case 3 =>
      ThreeTails(c[0], c[1], c[2]);
      ThreeScalar(c[0], c[1], c[2]);
      ThreeSplit(c[0], c[1], c[2]);
    case _ =>
      FourTails(c[0], c[1], c[2], c[3]);
      FourScalar(c[0], c[1], c[2], c[3]);
      FourSplit(c[0], c[1], c[2], c[3]);
  }

  ghost function EncodeAll(vs: seq<bv32>): seq<byte> { if vs == [] then [] else Encode(vs[0]) + EncodeAll(vs[1..]) }

  ghost predicate AllScalars(vs: seq<bv32>) { forall i :: 0 <= i < |vs| ==> Scalar(vs[i]) }

  lemma {:induction false} CharsEncode(cs: seq<seq<byte>>) returns (vs: seq<bv32>)
    requires AllChars(cs)
    ensures AllScalars(vs) && EncodeAll(vs) == Flatten(cs)
  {
    hide IsChar, Encode, Decode, Scalar;
    if cs == [] { return []; }
    var rest := CharsEncode(cs[1..]);
    assert IsChar(cs[0]);
    assert 1 <= |cs[0]| <= 4 by { CharLength(cs[0]); }
    DecodesChar(cs[0]);
    vs := [Decode(cs[0])] + rest;
  }

  lemma CharLength(c: seq<byte>)
    requires IsChar(c)
    ensures 1 <= |c| <= 4
  {
  }

  lemma {:induction false} ScalarsSpell(vs: seq<bv32>) returns (cs: seq<seq<byte>>)
    requires AllScalars(vs)
    ensures AllChars(cs) && Flatten(cs) == EncodeAll(vs)
  {
    hide IsChar, Encode, Decode, Scalar;
    if vs == [] { return []; }
    var rest := ScalarsSpell(vs[1..]);
    assert Scalar(vs[0]);
    EncodesScalar(vs[0]);
    cs := [Encode(vs[0])] + rest;
  }

  ghost predicate Encodes(vs: seq<bv32>, s: seq<byte>) { AllScalars(vs) && EncodeAll(vs) == s }

  /** The grammar accepts exactly the encodings of sequences of scalar values. */
  lemma WellFormedIsEncoded(s: seq<byte>)
    ensures WellFormed(s) <==> exists vs :: Encodes(vs, s)
  {
    if WellFormed(s) {
      var cs :| Spells(cs, s);
      var vs := CharsEncode(cs);
      assert Encodes(vs, s);
    }
    if exists vs :: Encodes(vs, s) {
      var vs :| Encodes(vs, s);
      var cs := ScalarsSpell(vs);
      assert Spells(cs, s);
    }
  }

  // ---------- prefixes ----------

  lemma {:induction false} FlattenConcat(a: seq<seq<byte>>, b: seq<seq<byte>>)
    ensures Flatten(a + b) == Flatten(a) + Flatten(b)
  {
    if a == [] {
      assert a + b == b;
    } else {
      FlattenConcat(a[1..], b);
      assert (a + b)[1..] == a[1..] + b && (a + b)[0] == a[0];
    }
  }

  lemma Extended(s: seq<byte>, c: seq<byte>)
    requires WellFormed(s) && IsChar(c)
    ensures WellFormed(s + c)
  {
    var cs :| Spells(cs, s);
    FlattenConcat(cs, [c]);
    assert Flatten([c]) == c + Flatten([]) == c;
    assert Spells(cs + [c], s + c);
  }

  lemma NothingSpelled()
    ensures WellFormed([])
  {
    assert Spells([], []);
  }

  /** One character is never the beginning of another. */
  lemma PrefixFree(c: seq<byte>, d: seq<byte>, s: seq<byte>, t: seq<byte>)
    requires IsChar(c) && IsChar(d) && c + s == d + t
    ensures c == d && s == t
  {
    assert c[0] == (c + s)[0] == (d + t)[0] == d[0];
    assert |c| == |d|;
    assert c == (c + s)[..|c|] && d == (d + t)[..|d|];
    assert s == (c + s)[|c|..] && t == (d + t)[|d|..];
  }

  /** What follows a well-formed beginning of a well-formed text is well formed. */
  lemma {:induction false} RestSpelled(a: seq<seq<byte>>, b: seq<seq<byte>>, rest: seq<byte>)
    requires AllChars(a) && AllChars(b) && Flatten(b) == Flatten(a) + rest
    ensures WellFormed(rest)
    decreases |a|
  {
    hide IsChar;
    if a == [] {
      assert Spells(b, rest);
    } else {
      assert IsChar(a[0]);
      CharLength(a[0]);
      assert Flatten(b) == a[0] + (Flatten(a[1..]) + rest);
      assert b != [];
      assert IsChar(b[0]);
      PrefixFree(a[0], b[0], Flatten(a[1..]) + rest, Flatten(b[1..]));
      RestSpelled(a[1..], b[1..], rest);
    }
  }

  /** A text that begins with no character of its own is well formed only if it is empty. */
  lemma BeginsWithChar(s: seq<byte>)
    requires WellFormed(s) && s != []
    ensures exists k :: 1 <= k <= |s| && IsChar(s[..k])
  {
    var cs :| Spells(cs, s);
    assert IsChar(cs[0]);
    assert s == cs[0] + Flatten(cs[1..]);
    assert s[..|cs[0]|] == cs[0];
  }

  /** A character of `k` bytes begins at `n`. */
  predicate CharAt(s: seq<byte>, n: nat, k: nat) { 1 <= k && n + k <= |s| && IsChar(s[n..n + k]) }

  lemma SliceOfSlice(s: seq<byte>, n: nat, m: nat, k: nat)
    requires n <= m <= |s| && k <= m - n
    ensures s[n..m][..k] == s[n..n + k]
  {
  }

  lemma FurtherChar(s: seq<byte>, n: nat, m: nat)
    requires n < m <= |s| && WellFormed(s[..n])
    ensures WellFormed(s[..m]) ==> exists k :: CharAt(s, n, k)
  {
    hide IsChar;
    if WellFormed(s[..m]) {
      var a :| Spells(a, s[..n]);
      var b :| Spells(b, s[..m]);
      var rest := s[n..m];
      assert s[..m] == s[..n] + rest;
      RestSpelled(a, b, rest);
      BeginsWithChar(rest);
      var k :| 1 <= k <= |rest| && IsChar(rest[..k]);
      SliceOfSlice(s, n, m, k);
      assert CharAt(s, n, k);
    }
  }

  /** Where no character begins, no longer prefix is well formed. */
  lemma NoFurther(s: seq<byte>, n: nat)
    requires n <= |s| && WellFormed(s[..n]) && forall k :: !CharAt(s, n, k)
    ensures forall m :: n < m <= |s| ==> !WellFormed(s[..m])
  {
    hide WellFormed, CharAt;
    forall m | n < m <= |s| ensures !WellFormed(s[..m]) { FurtherChar(s, n, m); }
  }

  // ---------- the eight-byte step ----------

  function Word(b: seq<byte>): bv64
    requires |b| == 8
  {
    (b[0] as bv64) | ((b[1] as bv64) << 8) | ((b[2] as bv64) << 16) | ((b[3] as bv64) << 24)
    | ((b[4] as bv64) << 32) | ((b[5] as bv64) << 40) | ((b[6] as bv64) << 48) | ((b[7] as bv64) << 56)
  }

  /** One test of the word tells whether all of its eight bytes are ASCII. */
  lemma WordIsAscii(b: seq<byte>)
    requires |b| == 8
    ensures Word(b) & 0x8080_8080_8080_8080 == 0 <==> forall i :: 0 <= i < 8 ==> b[i] < 0x80
  {
    MaskTest(b[0], b[1], b[2], b[3], b[4], b[5], b[6], b[7]);
    assert forall i :: 0 <= i < 8 ==> b[i] in [b[0], b[1], b[2], b[3], b[4], b[5], b[6], b[7]];
  }

  lemma MaskTest(a: byte, b: byte, c: byte, d: byte, e: byte, f: byte, g: byte, h: byte)
    ensures ((a as bv64) | ((b as bv64) << 8) | ((c as bv64) << 16) | ((d as bv64) << 24)
             | ((e as bv64) << 32) | ((f as bv64) << 40) | ((g as bv64) << 48) | ((h as bv64) << 56))
            & 0x8080_8080_8080_8080 == 0
       <==> a < 0x80 && b < 0x80 && c < 0x80 && d < 0x80 && e < 0x80 && f < 0x80 && g < 0x80 && h < 0x80
  {
  }

  /** ASCII bytes are characters one by one. */
  lemma {:induction false} AsciiExtends(s: seq<byte>, n: nat, m: nat)
    requires n <= m <= |s| && WellFormed(s[..n]) && forall i :: n <= i < m ==> s[i] < 0x80
    ensures WellFormed(s[..m])
    decreases m - n
  {
    hide WellFormed;
    if n < m {
      Extended(s[..n], [s[n]]);
      assert s[..n + 1] == s[..n] + [s[n]];
      AsciiExtends(s, n + 1, m);
    }
  }

  // ---------- the validator ----------

  /** What a lead byte asks of the bytes after it: how many, and the range of the first. */
  function Asks(lead: byte): (a: (nat, byte, byte)) {
    if 0xC2 <= lead <= 0xDF then (1, 0x80, 0xBF)
    else if lead == 0xE0 then (2, 0xA0, 0xBF)
    else if lead == 0xED then (2, 0x80, 0x9F)
    else if (0xE1 <= lead <= 0xEC) || lead == 0xEE || lead == 0xEF then (2, 0x80, 0xBF)
    else if lead == 0xF0 then (3, 0x90, 0xBF)
    else if 0xF1 <= lead <= 0xF3 then (3, 0x80, 0xBF)
    else if lead == 0xF4 then (3, 0x80, 0x8F)
    else (0, 0, 0)
  }

  predicate TailAt(s: seq<byte>, n: nat, i: nat) { n + i < |s| && Tail(s[n + i]) }

  /** The lead byte, the range of the first continuation, and the others: that is the grammar. */
  lemma AsksGrammar(s: seq<byte>, n: nat, k: nat)
    requires n < |s| && s[n] >= 0x80
    ensures CharAt(s, n, k) <==>
              var a := Asks(s[n]);
              a.0 > 0 && k == a.0 + 1 && n + k <= |s| && a.1 <= s[n + 1] <= a.2
              && forall i: nat :: 2 <= i <= a.0 ==> TailAt(s, n, i)
  {
    if n + k <= |s| {
      var c := s[n..n + k];
      assert forall i :: 0 <= i < k ==> c[i] == s[n + i];
      assert k >= 3 ==> (TailAt(s, n, 2) <==> Tail(c[2]));
      assert k >= 4 ==> (TailAt(s, n, 3) <==> Tail(c[3]));
    }
  }

  lemma TailMask(b: byte)
    ensures b & 0xC0 == 0x80 <==> Tail(b)
  {
  }

  /** `arnm_utf8_valid_length`: the longest prefix that is well formed. */
  method ValidLength(s: seq<byte>) returns (n: nat)
    ensures n <= |s| && WellFormed(s[..n]) && forall m :: n < m <= |s| ==> !WellFormed(s[..m])
    ensures n == |s| <==> WellFormed(s)
  {
    hide WellFormed, IsChar, Word, Asks, Tail, CharAt;
    n := 0;
    NothingSpelled();
    assert s[..0] == [] && s[..|s|] == s;
    while n < |s|
      invariant n <= |s| && WellFormed(s[..n])
      decreases |s| - n
    {
      if s[n] < 0x80 {
        n := SkipAscii(s, n);
        continue;
      }
      var asks := Asks(s[n]);
      forall k { AsksGrammar(s, n, k); }
      if asks.0 == 0 || |s| - n <= asks.0 || s[n + 1] < asks.1 || s[n + 1] > asks.2 {
        NoFurther(s, n);
        return;
      }
      var step: nat := 2;
      while step <= asks.0
        invariant 2 <= step && forall i: nat :: 2 <= i < step && i <= asks.0 ==> TailAt(s, n, i)
      {
        TailMask(s[n + step]);
        if s[n + step] & 0xC0 != 0x80 {
          assert !TailAt(s, n, step);
          NoFurther(s, n);
          return;
        }
        step := step + 1;
      }
      CharRead(s, n, asks.0 + 1);
      n := n + asks.0 + 1;
    }
  }

  lemma CharRead(s: seq<byte>, n: nat, k: nat)
    requires n <= |s| && WellFormed(s[..n]) && CharAt(s, n, k)
    ensures WellFormed(s[..n + k])
  {
    Extended(s[..n], s[n..n + k]);
    assert s[..n + k] == s[..n] + s[n..n + k];
  }

  /** ASCII in machine words, then byte by byte: the words change no answer. */
  method SkipAscii(s: seq<byte>, from: nat) returns (n: nat)
    requires from < |s| && s[from] < 0x80 && WellFormed(s[..from])
    ensures from < n <= |s| && WellFormed(s[..n]) && (n < |s| ==> s[n] >= 0x80)
  {
    hide WellFormed, IsChar, Word;
    n := from;
    while |s| - n >= 8
      invariant from <= n <= |s| && forall i :: from <= i < n ==> s[i] < 0x80
      decreases |s| - n
    {
      WordIsAscii(s[n..n + 8]);
      if Word(s[n..n + 8]) & 0x8080_8080_8080_8080 != 0 { break; }
      assert forall i :: n <= i < n + 8 ==> s[i] == s[n..n + 8][i - n];
      n := n + 8;
    }
    while n < |s| && s[n] < 0x80
      invariant from <= n <= |s| && forall i :: from <= i < n ==> s[i] < 0x80
    {
      n := n + 1;
    }
    AsciiExtends(s, from, n);
  }
}

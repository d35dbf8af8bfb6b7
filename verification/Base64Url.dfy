/**
 The starter template's base64url decoder, bit accumulator and all, and the three-part split
 of a token around it. C++ strings are sequences of bytes.
 */
module Base64Url {
  import opened Text

  type Byte = b: int | 0 <= b < 256
  type Sextet = v: int | 0 <= v < 64

  const PAD: Byte := 61    // '='
  const DOT: Byte := 46    // '.'
  const MINUS: Byte := 45
  const PLUS: Byte := 43
  const UNDERSCORE: Byte := 95
  const SLASH: Byte := 47

  /** The i-th character of A-Z, a-z, 0-9, + and /. */
  function Alphabet(i: Sextet): Byte {
    if i < 26 then 65 + i else if i < 52 then 71 + i else if i < 62 then i - 4 else if i == 62 then PLUS else SLASH
  }

  /** The index of a character in the alphabet, or -1. */
  function Value(c: Byte): (v: int)
    ensures -1 <= v < 64
    ensures v >= 0 ==> Alphabet(v) == c
    ensures v < 0 ==> forall i: Sextet :: Alphabet(i) != c
  {
    if 65 <= c <= 90 then c - 65
    else if 97 <= c <= 122 then c - 71
    else if 48 <= c <= 57 then c + 4
    else if c == PLUS then 62
    else if c == SLASH then 63
    else -1
  }

  function Standard(c: Byte): Byte {
    if c == MINUS then PLUS else if c == UNDERSCORE then SLASH else c
  }

  /** The sextets a text stands for: up to the first '=', each character of either alphabet, others skipped. */
  function Sextets(text: seq<Byte>): seq<Sextet> {
    if text == [] || text[0] == PAD then []
    else
      var v := Value(Standard(text[0]));
      if v < 0 then Sextets(text[1..]) else [v] + Sextets(text[1..])
  }

  /** Section 4 of RFC 4648: four sextets are three bytes; of a shorter last group, what fills whole bytes. */
  function Regroup(vs: seq<Sextet>): seq<Byte> {
    if |vs| < 2 then []
    else if |vs| == 2 then [First(vs[0], vs[1])]
    else if |vs| == 3 then [First(vs[0], vs[1]), Second(vs[1], vs[2])]
    else [First(vs[0], vs[1]), Second(vs[1], vs[2]), Third(vs[2], vs[3])] + Regroup(vs[4..])
  }

  function First(a: Sextet, b: Sextet): Byte {
    4 * a + b / 16
  }

  function Second(b: Sextet, c: Sextet): Byte {
    16 * (b % 16) + c / 4
  }

  function Third(c: Sextet, d: Sextet): Byte {
    64 * (c % 4) + d
  }

  // --- The accumulator ---

  /** The 32-bit two's complement value of an int. */
  function Wrap32(x: int): int {
    (x + 0x8000_0000) % 0x1_0000_0000 - 0x8000_0000
  }

  /** 2 to the power of a number of bits, as far as needed. */
  function Pow2(n: nat): (p: nat)
    requires n in {0, 2, 4, 6}
    ensures p > 0
  {
    if n == 0 then 1 else if n == 2 then 4 else if n == 4 then 16 else 64
  }

  /** How many bits are pending after some sextets, and what they say. */
  function Pending(vs: seq<Sextet>): (p: (nat, nat))
    ensures p.0 in {0, 2, 4, 6} && p.1 < Pow2(p.0)
  {
    var n := |vs|;
    if n % 4 == 0 then (0, 0)
    else if n % 4 == 1 then (6, vs[n - 1])
    else if n % 4 == 2 then (4, vs[n - 1] % 16)
    else (2, vs[n - 1] % 4)
  }

  /** One more sextet completes a byte unless no bits were pending, and leaves the rest pending. */
  lemma {:induction false} RegroupPush(vs: seq<Sextet>, v: Sextet)
    ensures var (bits, left) := Pending(vs);
            var joined := left * 64 + v;
            if bits == 0 then Regroup(vs + [v]) == Regroup(vs) && Pending(vs + [v]) == (6, v)
            else Regroup(vs + [v]) == Regroup(vs) + [joined / Pow2(bits - 2)]
                 && Pending(vs + [v]) == (bits - 2, joined % Pow2(bits - 2))
  {
    if |vs| >= 4 {
      RegroupPush(vs[4..], v);
      PendingDrop(vs);
      PendingDrop(vs + [v]);
      assert (vs + [v])[4..] == vs[4..] + [v];
    } else if |vs| == 1 {
      assert vs + [v] == [vs[0], v];
    } else if |vs| == 2 {
      assert vs + [v] == [vs[0], vs[1], v];
    } else if |vs| == 3 {
      var four := vs + [v];
      assert four == [vs[0], vs[1], vs[2], v] && four[4..] == [];
    }
  }

  lemma PendingDrop(vs: seq<Sextet>)
    requires |vs| >= 4
    ensures Pending(vs[4..]) == Pending(vs)
  {
    if |vs| > 4 {
      assert vs[4..][|vs| - 5] == vs[|vs| - 1];
    }
  }

  lemma WrapIsMultiple(x: int) returns (k: int)
    ensures Wrap32(x) == x - k * 0x1_0000_0000
  {
    k := (x + 0x8000_0000) / 0x1_0000_0000;
  }

  lemma Remainder(t: int, m: int, rest: nat)
    requires m in {64, 256, 1024, 4096} && rest < m
    ensures (m * t + rest) % m == rest
  {
    if m == 64 {
      assert (64 * t + rest) % 64 == rest;
    } else if m == 256 {
      assert (256 * t + rest) % 256 == rest;
    } else if m == 1024 {
      assert (1024 * t + rest) % 1024 == rest;
    } else {
      assert (4096 * t + rest) % 4096 == rest;
    }
  }

  /** An int that wrapped still has its low bits: 2 to the power 32 is a multiple of every 64 * m used. */
  lemma WrapKeepsLowBits(accumulator: int, m: int, left: nat, v: Sextet)
    requires m in {1, 4, 16, 64} && accumulator % m == left
    ensures Wrap32(accumulator * 64 + v) % (64 * m) == left * 64 + v
  {
    var q := accumulator / m;
    var k := WrapIsMultiple(accumulator * 64 + v);
    var t := q - k * (if m == 1 then 0x400_0000 else if m == 4 then 0x100_0000 else if m == 16 then 0x40_0000 else 0x10_0000);
    assert accumulator == m * q + left;
    assert Wrap32(accumulator * 64 + v) == 64 * m * t + (left * 64 + v);
    Remainder(t, 64 * m, left * 64 + v);
  }

  /** Shifting the pending bits out and masking gives the joined byte; what stays is the rest. */
  lemma ShiftAndMask(next: int, bits: nat, joined: nat)
    requires bits in {0, 2, 4} && joined < 256 * Pow2(bits) && next % (256 * Pow2(bits)) == joined
    ensures next / Pow2(bits) % 256 == joined / Pow2(bits)
    ensures next % Pow2(bits) == joined % Pow2(bits)
  {
    if bits == 2 {
      ShiftBy2(next / 1024, joined);
    } else if bits == 4 {
      ShiftBy4(next / 4096, joined);
    }
  }

  lemma ShiftBy2(t: int, joined: nat)
    requires joined < 1024
    ensures (1024 * t + joined) / 4 % 256 == joined / 4 && (1024 * t + joined) % 4 == joined % 4
  {
    assert (1024 * t + joined) / 4 == 256 * t + joined / 4;
  }

  lemma ShiftBy4(t: int, joined: nat)
    requires joined < 4096
    ensures (4096 * t + joined) / 16 % 256 == joined / 16 && (4096 * t + joined) % 16 == joined % 16
  {
    assert (4096 * t + joined) / 16 == 256 * t + joined / 16;
  }

  /** One turn of the decoder's loop. */
  lemma {:induction false} Turn(done: seq<Sextet>, accumulator: int, bits: nat, v: Sextet)
    requires bits in {0, 2, 4, 6} && Pending(done) == (bits, accumulator % Pow2(bits))
    ensures var next := Wrap32(accumulator * 64 + v);
            if bits == 0 then Regroup(done + [v]) == Regroup(done) && Pending(done + [v]) == (6, next % Pow2(6))
            else Regroup(done + [v]) == Regroup(done) + [next / Pow2(bits - 2) % 256]
                 && Pending(done + [v]) == (bits - 2, next % Pow2(bits - 2))
  {
    var left := accumulator % Pow2(bits);
    var next := Wrap32(accumulator * 64 + v);
    WrapKeepsLowBits(accumulator, Pow2(bits), left, v);
    RegroupPush(done, v);
    if bits > 0 {
      ShiftAndMask(next, bits - 2, left * 64 + v);
    }
  }

  // --- The decoder ---

  lemma {:induction false} StandardKeepsSextets(text: seq<Byte>, standard: seq<Byte>)
    requires |standard| == |text| && forall i :: 0 <= i < |text| ==> standard[i] == Standard(text[i])
    ensures Sextets(standard) == Sextets(text)
  {
    if text == [] {
    } else {
      StandardKeepsSextets(text[1..], standard[1..]);
    }
  }

  function Pads(n: nat): seq<Byte> {
    seq(n, i => PAD)
  }

  lemma {:induction false} PadsKeepSextets(text: seq<Byte>, n: nat)
    ensures Sextets(text + Pads(n)) == Sextets(text)
  {
    if text == [] {
    } else {
      PadsKeepSextets(text[1..], n);
      assert (text + Pads(n))[1..] == text[1..] + Pads(n);
    }
  }

  method ToStandard(text: seq<Byte>) returns (input: seq<Byte>)
    ensures Sextets(input) == Sextets(text)
    ensures forall c :: c in input ==> Standard(c) == c
  {
    input := text;
    for i := 0 to |input|
      invariant |input| == |text|
      invariant forall j :: 0 <= j < i ==> input[j] == Standard(text[j])
      invariant forall j :: i <= j < |text| ==> input[j] == text[j]
    {
      if input[i] == MINUS {
        input := input[i := PLUS];
      }
      if input[i] == UNDERSCORE {
        input := input[i := SLASH];
      }
    }
    StandardKeepsSextets(text, input);
  }

  method Padded(text: seq<Byte>) returns (input: seq<Byte>)
    ensures exists n: nat :: n < 4 && input == text + Pads(n)
    ensures |input| % 4 == 0
  {
    input := text;
    ghost var n: nat := 0;
    while |input| % 4 != 0
      invariant input == text + Pads(n)
      invariant n > 0 ==> 1 <= |text| % 4 && |text| % 4 + n <= 4
      decreases 4 - n
    {
      input := input + [PAD];
      n := n + 1;
      assert input == text + Pads(n);
    }
  }

  method BuildLookup() returns (lookup: array<int>)
    ensures lookup.Length == 256 && forall c: Byte :: lookup[c] == Value(c)
  {
    lookup := new int[256](i => -1);
    for i := 0 to 64
      invariant forall j: Sextet :: j < i ==> lookup[Alphabet(j)] == j
      invariant forall c: Byte :: lookup[c] == -1 || (0 <= lookup[c] < i && Alphabet(lookup[c]) == c)
    {
      lookup[Alphabet(i)] := i;
    }
    forall c: Byte ensures lookup[c] == Value(c) {
      if Value(c) >= 0 {
        assert lookup[Alphabet(Value(c))] == Value(c);
      }
    }
  }

  lemma SextetsStep(input: seq<Byte>, i: nat, done: seq<Sextet>)
    requires i < |input| && input[i] != PAD && Standard(input[i]) == input[i]
    ensures var v := Value(input[i]);
            done + Sextets(input[i..]) == (if v >= 0 then done + [v] else done) + Sextets(input[i + 1..])
  {
    assert input[i..][1..] == input[i + 1..];
  }

  /** base64url_decode: the 32-bit accumulator is never masked, and wraps. */
  method Decode(text: seq<Byte>) returns (out: seq<Byte>)
    ensures out == Regroup(Sextets(text))
  {
    var standard := ToStandard(text);
    var input := Padded(standard);
    ghost var n: nat :| input == standard + Pads(n);
    PadsKeepSextets(standard, n);
    var lookup := BuildLookup();
    out := [];
    var bits: nat, accumulator := 0, 0;
    ghost var done: seq<Sextet> := [];
    var i := 0;
    while i < |input| && input[i] != PAD
      invariant i <= |input|
      invariant lookup.Length == 256 && forall c: Byte :: lookup[c] == Value(c)
      invariant Sextets(input) == done + Sextets(input[i..])
      invariant out == Regroup(done)
      invariant bits in {0, 2, 4, 6} && Pending(done) == (bits, accumulator % Pow2(bits))
    {
      var value := lookup[input[i]];
      assert input[i] in input && value == Value(input[i]);
      SextetsStep(input, i, done);
      if value >= 0 {
        Turn(done, accumulator, bits, value);
        done := done + [value];
        accumulator := Wrap32(accumulator * 64 + value);
        bits := bits + 6;
        if bits >= 8 {
          bits := bits - 8;
          out := out + [accumulator / Pow2(bits) % 256];
        }
      }
      i := i + 1;
    }
    assert done + [] == done;
  }

  // --- The encoding, and the round trip ---

  function UrlChar(v: Sextet): Byte {
    if v == 62 then MINUS else if v == 63 then UNDERSCORE else Alphabet(v)
  }

  function Chars(vs: seq<Sextet>): seq<Byte> {
    seq(|vs|, i requires 0 <= i < |vs| => UrlChar(vs[i]))
  }

  /** Section 4 of RFC 4648: three bytes are four sextets; a shorter last group is filled with zero bits. */
  function ToSextets(s: seq<Byte>): seq<Sextet> {
    if s == [] then []
    else if |s| == 1 then [Top6(s[0]), Low2High4(s[0], 0)]
    else if |s| == 2 then [Top6(s[0]), Low2High4(s[0], s[1]), Low4High2(s[1], 0)]
    else [Top6(s[0]), Low2High4(s[0], s[1]), Low4High2(s[1], s[2]), Low6(s[2])] + ToSextets(s[3..])
  }

  function Top6(a: Byte): Sextet {
    a / 4
  }

  function Low2High4(a: Byte, b: Byte): Sextet {
    16 * (a % 4) + b / 16
  }

  function Low4High2(b: Byte, c: Byte): Sextet {
    4 * (b % 16) + c / 64
  }

  function Low6(c: Byte): Sextet {
    c % 64
  }

  function Encode(s: seq<Byte>): seq<Byte> {
    Chars(ToSextets(s))
  }

  lemma {:induction false} SextetsOfChars(vs: seq<Sextet>)
    ensures Sextets(Chars(vs)) == vs
    ensures forall c :: c in Chars(vs) ==> c != DOT && c != PAD
  {
    if vs == [] {
    } else {
      assert Chars(vs)[1..] == Chars(vs[1..]);
      SextetsOfChars(vs[1..]);
      assert vs == [vs[0]] + vs[1..];
    }
  }

  lemma FirstInverts(a: Byte, b: Byte)
    ensures First(Top6(a), Low2High4(a, b)) == a
  {
  }

  lemma SecondInverts(a: Byte, b: Byte, c: Byte)
    ensures Second(Low2High4(a, b), Low4High2(b, c)) == b
  {
    assert Low2High4(a, b) % 16 == b / 16;
    assert Low4High2(b, c) / 4 == b % 16;
  }

  lemma ThirdInverts(b: Byte, c: Byte)
    ensures Third(Low4High2(b, c), Low6(c)) == c
  {
  }

  lemma RegroupFour(p: Sextet, q: Sextet, r: Sextet, t: Sextet, rest: seq<Sextet>)
    ensures Regroup([p, q, r, t] + rest) == [First(p, q), Second(q, r), Third(r, t)] + Regroup(rest)
  {
    assert ([p, q, r, t] + rest)[4..] == rest;
  }

  lemma ToSextetsThree(a: Byte, b: Byte, c: Byte, rest: seq<Byte>)
    ensures ToSextets([a, b, c] + rest) == [Top6(a), Low2High4(a, b), Low4High2(b, c), Low6(c)] + ToSextets(rest)
  {
    assert ([a, b, c] + rest)[3..] == rest;
  }

  lemma RegroupInvertsThree(a: Byte, b: Byte, c: Byte, rest: seq<Byte>)
    requires Regroup(ToSextets(rest)) == rest
    ensures Regroup(ToSextets([a, b, c] + rest)) == [a, b, c] + rest
  {
    ToSextetsThree(a, b, c, rest);
    RegroupFour(Top6(a), Low2High4(a, b), Low4High2(b, c), Low6(c), ToSextets(rest));
    FirstInverts(a, b);
    SecondInverts(a, b, c);
    ThirdInverts(b, c);
  }

  lemma RegroupInvertsTwo(a: Byte, b: Byte)
    ensures Regroup(ToSextets([a, b])) == [a, b]
  {
    FirstInverts(a, b);
    SecondInverts(a, b, 0);
    assert ToSextets([a, b]) == [Top6(a), Low2High4(a, b), Low4High2(b, 0)];
  }

  lemma RegroupInvertsOne(a: Byte)
    ensures Regroup(ToSextets([a])) == [a]
  {
    FirstInverts(a, 0);
    assert ToSextets([a]) == [Top6(a), Low2High4(a, 0)];
  }

  lemma {:induction false} RegroupInverts(s: seq<Byte>)
    ensures Regroup(ToSextets(s)) == s
  {
    if |s| >= 3 {
      RegroupInverts(s[3..]);
      var t := [s[0], s[1], s[2]] + s[3..];
      RegroupInvertsThree(s[0], s[1], s[2], s[3..]);
      assert s == t;
    } else if |s| == 2 {
      RegroupInvertsTwo(s[0], s[1]);
      assert s == [s[0], s[1]];
    } else if |s| == 1 {
      RegroupInvertsOne(s[0]);
      assert s == [s[0]];
    }
  }

  /** Decoding what section 5 of RFC 4648 encodes gives it back, padded or not, for every byte string. */
  lemma RoundTrip(s: seq<Byte>, pads: nat)
    ensures Regroup(Sextets(Encode(s) + Pads(pads))) == s
  {
    PadsKeepSextets(Encode(s), pads);
    SextetsOfChars(ToSextets(s));
    RegroupInverts(s);
  }

  /** A sextet sequence an encoder writes: no lone last sextet, and zero fill bits. */
  predicate IsCanonical(vs: seq<Sextet>) {
    var n := |vs|;
    n % 4 != 1 && (n % 4 == 2 ==> vs[n - 1] % 16 == 0) && (n % 4 == 3 ==> vs[n - 1] % 4 == 0)
  }

  lemma GroupInverts(a: Sextet, b: Sextet, c: Sextet, d: Sextet)
    ensures Top6(First(a, b)) == a
    ensures Low2High4(First(a, b), Second(b, c)) == b
    ensures Low4High2(Second(b, c), Third(c, d)) == c
    ensures Low6(Third(c, d)) == d
  {
  }

  lemma LastOfGroup(a: Sextet, b: Sextet, c: Sextet)
    ensures Low2High4(First(a, b), 0) == 16 * (b / 16)
    ensures Low4High2(Second(b, c), 0) == 4 * (c / 4)
  {
  }

  lemma {:induction false} FourthsInvert(vs: seq<Sextet>)
    requires |vs| >= 4
    ensures ToSextets(Regroup(vs)) == vs[..4] + ToSextets(Regroup(vs[4..]))
  {
    assert vs == [vs[0], vs[1], vs[2], vs[3]] + vs[4..];
    ToSextetsThree(First(vs[0], vs[1]), Second(vs[1], vs[2]), Third(vs[2], vs[3]), Regroup(vs[4..]));
    GroupInverts(vs[0], vs[1], vs[2], vs[3]);
  }

  lemma {:induction false} ShortGroupInverts(vs: seq<Sextet>)
    requires |vs| < 4
    ensures ToSextets(Regroup(vs)) == vs <==> IsCanonical(vs)
  {
    if |vs| == 3 {
      GroupInverts(vs[0], vs[1], vs[2], 0);
      LastOfGroup(vs[0], vs[1], vs[2]);
      assert vs == [vs[0], vs[1], vs[2]];
    } else if |vs| == 2 {
      GroupInverts(vs[0], vs[1], 0, 0);
      LastOfGroup(vs[0], vs[1], 0);
      assert vs == [vs[0], vs[1]];
    } else {
      assert ToSextets([]) == [];
    }
  }

  /** Encoding the bytes of some sextets gives the same sextets exactly when they are canonical. */
  lemma {:induction false} EncodeInvertsExactlyCanonical(vs: seq<Sextet>)
    ensures ToSextets(Regroup(vs)) == vs <==> IsCanonical(vs)
  {
    if |vs| >= 4 {
      var rest := vs[4..];
      EncodeInvertsExactlyCanonical(rest);
      FourthsInvert(vs);
      CanonicalRest(vs);
      assert vs == vs[..4] + rest;
      assert (vs[..4] + ToSextets(Regroup(rest)))[4..] == ToSextets(Regroup(rest));
    } else {
      ShortGroupInverts(vs);
    }
  }

  lemma CanonicalRest(vs: seq<Sextet>)
    requires |vs| >= 4
    ensures IsCanonical(vs[4..]) <==> IsCanonical(vs)
  {
    assert |vs| > 4 ==> vs[4..][|vs| - 5] == vs[|vs| - 1];
  }

  // --- Which texts come back ---

  /** A character of the URL alphabet. */
  ghost predicate IsUrlChar(c: Byte) {
    exists v: Sextet :: UrlChar(v) == c
  }

  ghost predicate IsUrlText(text: seq<Byte>) {
    forall c :: c in text ==> IsUrlChar(c)
  }

  lemma CharsOfSextets(text: seq<Byte>)
    ensures Chars(Sextets(text)) == text <==> IsUrlText(text)
  {
    if IsUrlText(text) {
      UrlTextHasItsSextets(text);
    } else if Chars(Sextets(text)) == text {
      CharsAreUrlText(Sextets(text));
    }
  }

  lemma CharsAreUrlText(vs: seq<Sextet>)
    ensures IsUrlText(Chars(vs))
  {
    forall c | c in Chars(vs) ensures IsUrlChar(c) {
      var i :| 0 <= i < |vs| && Chars(vs)[i] == c;
      assert UrlChar(vs[i]) == c;
    }
  }

  lemma {:induction false} UrlTextHasItsSextets(text: seq<Byte>)
    requires IsUrlText(text)
    ensures Chars(Sextets(text)) == text
  {
    if text == [] {
    } else {
      assert IsUrlChar(text[0]) && IsUrlText(text[1..]);
      var v: Sextet :| UrlChar(v) == text[0];
      assert Value(Standard(text[0])) == v;
      UrlTextHasItsSextets(text[1..]);
      assert Sextets(text) == [v] + Sextets(text[1..]);
      assert text == [text[0]] + text[1..];
    }
  }

  /** Encoding what the decoder returns gives the same text exactly when all its characters are of the URL
      alphabet and its sextets are canonical; the decoder accepts every other text too. */
  lemma TextComesBackExactly(text: seq<Byte>)
    ensures Encode(Regroup(Sextets(text))) == text <==> IsUrlText(text) && IsCanonical(Sextets(text))
  {
    var vs := Sextets(text);
    EncodeInvertsExactlyCanonical(vs);
    CharsOfSextets(text);
    if Chars(ToSextets(Regroup(vs))) == text {
      SextetsOfChars(ToSextets(Regroup(vs)));
    }
  }

  /** "Q!Q" is read as "QQ", whose sextets are canonical, but does not come back. */
  lemma SkippedCharacterIsLost()
    ensures Sextets([81, 33, 81]) == [16, 16] && IsCanonical([16, 16])
    ensures Encode(Regroup(Sextets([81, 33, 81]))) == [81, 81]
  {
    assert [81, 33, 81][1..] == [33, 81] && [33, 81][1..] == [81] && [81][1..] == [];
    assert Sextets([81]) == [16] && Sextets([33, 81]) == [16];
    assert Regroup([16, 16]) == [65] && ToSextets([65]) == [16, 16];
  }

  /** The encoding of section 4 of RFC 4648, filled up to a multiple of four characters. */
  function PaddedEncode(s: seq<Byte>): seq<Byte> {
    Encode(s) + Pads(Missing(|Encode(s)|))
  }

  function Missing(n: nat): nat {
    (4 - n % 4) % 4
  }

  /** The text before its first = sign. */
  function Body(text: seq<Byte>): seq<Byte> {
    text[..Find(text, PAD)]
  }

  lemma {:induction false} SextetsOfBody(text: seq<Byte>)
    ensures Sextets(Body(text)) == Sextets(text)
  {
    if text == [] || text[0] == PAD {
    } else {
      SextetsOfBody(text[1..]);
      assert Body(text) == [text[0]] + Body(text[1..]);
    }
  }

  lemma BodyOfPadded(body: seq<Byte>, n: nat)
    requires PAD !in body
    ensures Body(body + Pads(n)) == body
  {
    var text := body + Pads(n);
    if n == 0 {
      assert text == body;
    } else {
      assert Pads(n) == [PAD] + Pads(n - 1);
      assert text == body + [PAD] + Pads(n - 1);
      FindAfter(body, PAD, Pads(n - 1));
    }
  }

  /** With padding, exactly when this holds of the text before its = signs, and they are as many as are
      missing to a multiple of four. */
  lemma PaddedTextComesBackExactly(text: seq<Byte>)
    ensures PaddedEncode(Regroup(Sextets(text))) == text <==>
            && IsUrlText(Body(text)) && IsCanonical(Sextets(text))
            && text == Body(text) + Pads(Missing(|Body(text)|))
  {
    var body, again := Body(text), Encode(Regroup(Sextets(text)));
    SextetsOfBody(text);
    TextComesBackExactly(body);
    SextetsOfChars(ToSextets(Regroup(Sextets(text))));
    BodyOfPadded(again, Missing(|again|));
  }

  // --- The token around it ---

  /** decode_jwt_claims_unverified, up to the JSON parser. */
  function Claims(token: seq<Byte>): Option<seq<Byte>> {
    var first := Find(token, DOT);
    if first == |token| then None
    else
      var second := Find(token[first + 1..], DOT);
      if second == |token| - first - 1 then None
      else Some(Regroup(Sextets(token[first + 1..first + 1 + second])))
  }

  /** The claims are the second of the dot-separated parts, if there are three. */
  lemma {:induction false} ClaimsAreSecondPart(token: seq<Byte>)
    ensures var parts := Split(token, DOT);
            Claims(token) == if |parts| >= 3 then Some(Regroup(Sextets(parts[1]))) else None
  {
    var first := Find(token, DOT);
    if first < |token| {
      var rest := token[first + 1..];
      var second := Find(rest, DOT);
      assert Split(token, DOT) == [token[..first]] + Split(rest, DOT);
      if second < |rest| {
        assert rest[..second] == token[first + 1..first + 1 + second];
      }
    }
  }

  lemma {:induction false} ClaimsOfParts(header: seq<Byte>, payload: seq<Byte>, signature: seq<Byte>)
    requires DOT !in header && DOT !in payload
    ensures Claims(header + [DOT] + payload + [DOT] + signature) == Some(Regroup(Sextets(payload)))
  {
    var token := header + [DOT] + payload + [DOT] + signature;
    var rest := payload + [DOT] + signature;
    assert token == header + [DOT] + rest;
    FindAfter(header, DOT, rest);
    assert token[|header| + 1..] == rest;
    FindAfter(payload, DOT, signature);
    assert token[|header| + 1..|header| + 1 + |payload|] == payload;
  }

  /** Whatever claims a token carries, they are read back, whatever its header and signature are. */
  lemma ClaimsRoundTrip(header: seq<Byte>, claims: seq<Byte>, pads: nat, signature: seq<Byte>)
    requires DOT !in header
    ensures Claims(header + [DOT] + (Encode(claims) + Pads(pads)) + [DOT] + signature) == Some(claims)
  {
    SextetsOfChars(ToSextets(claims));
    ClaimsOfParts(header, Encode(claims) + Pads(pads), signature);
    RoundTrip(claims, pads);
  }
}

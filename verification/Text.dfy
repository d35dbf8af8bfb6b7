/** Operations on text that several programs share, as Python and C++ define them. */
module Text {

  datatype Option<+T> = None | Some(value: T)

  /** Python's str.isspace, which is also what \s matches. */
  predicate IsSpace(c: char) {
    || '\t' <= c <= '\r' || '\U{1C}' <= c <= ' ' || c == '\U{85}' || c == '\U{A0}' || c == '\U{1680}'
    || '\U{2000}' <= c <= '\U{200A}' || c == '\U{2028}' || c == '\U{2029}' || c == '\U{202F}'
    || c == '\U{205F}' || c == '\U{3000}'
  }

  /** The 29 code points, one by one. */
  lemma SpaceExactly(c: char)
    ensures IsSpace(c) <==> c as int in {
              9, 10, 11, 12, 13, 28, 29, 30, 31, 32, 133, 160, 5760, 8192, 8193, 8194, 8195, 8196, 8197, 8198, 8199,
              8200, 8201, 8202, 8232, 8233, 8239, 8287, 12288}
  {
  }

  predicate IsDigit(c: char) {
    '0' <= c <= '9'
  }

  function StripLeft(s: string): string {
    if s != "" && IsSpace(s[0]) then StripLeft(s[1..]) else s
  }

  function StripRight(s: string): string {
    if s != "" && IsSpace(s[|s| - 1]) then StripRight(s[..|s| - 1]) else s
  }

  /** str.strip() */
  function Strip(s: string): string {
    StripRight(StripLeft(s))
  }

  predicate IsBlank(s: string) {
    forall i :: 0 <= i < |s| ==> IsSpace(s[i])
  }

  lemma {:induction false} StripLeftCuts(s: string) returns (a: string)
    ensures s == a + StripLeft(s) && IsBlank(a)
    ensures StripLeft(s) != "" ==> !IsSpace(StripLeft(s)[0])
  {
    if s != "" && IsSpace(s[0]) {
      a := StripLeftCuts(s[1..]);
      a := [s[0]] + a;
    } else {
      a := "";
    }
  }

  lemma {:induction false} StripRightCuts(s: string) returns (b: string)
    ensures s == StripRight(s) + b && IsBlank(b)
    ensures var r := StripRight(s); r != "" ==> !IsSpace(r[|r| - 1])
  {
    if s != "" && IsSpace(s[|s| - 1]) {
      b := StripRightCuts(s[..|s| - 1]);
      b := b + [s[|s| - 1]];
    } else {
      b := "";
    }
  }

  /** Stripping cuts off just the white space at both ends. */
  lemma StripCuts(s: string) returns (a: string, b: string)
    ensures s == a + Strip(s) + b && IsBlank(a) && IsBlank(b)
    ensures var r := Strip(s); r != "" ==> !IsSpace(r[0]) && !IsSpace(r[|r| - 1])
  {
    a := StripLeftCuts(s);
    b := StripRightCuts(StripLeft(s));
    Reassociate(a, Strip(s), b);
  }

  ghost predicate Contains<T>(s: seq<T>, part: seq<T>) {
    exists k :: 0 <= k <= |s| && part <= s[k..]
  }

  /** The index of the first `x`, or the length. */
  function Find<T(==)>(s: seq<T>, x: T): (k: nat)
    ensures k <= |s|
    ensures x !in s[..k]
    ensures k < |s| ==> s[k] == x
    ensures k == |s| ==> x !in s
  {
    if s == [] || s[0] == x then 0
    else
      var k := Find(s[1..], x);
      assert s[..k + 1] == [s[0]] + s[1..][..k];
      assert s == [s[0]] + s[1..];
      k + 1
  }

  /** s.split(sep) for a one-character separator. */
  function Split<T(==)>(s: seq<T>, sep: T): (parts: seq<seq<T>>)
    ensures |parts| > 0
    ensures forall p :: p in parts ==> sep !in p
    decreases |s|
  {
    var k := Find(s, sep);
    if k == |s| then [s] else [s[..k]] + Split(s[k + 1..], sep)
  }

  /** sep.join(parts) for a one-character separator. */
  function Join<T>(parts: seq<seq<T>>, sep: T): seq<T> {
    if parts == [] then [] else if |parts| == 1 then parts[0] else parts[0] + [sep] + Join(parts[1..], sep)
  }

  lemma FindAfter<T>(a: seq<T>, x: T, b: seq<T>)
    requires x !in a
    ensures Find(a + [x] + b, x) == |a|
  {
    var s := a + [x] + b;
    var k := Find(s, x);
    assert forall i :: 0 <= i < |a| ==> s[i] == a[i];
    assert s[|a|] == x;
    assert x in s[..|a| + 1];
  }

  lemma {:induction false} SplitJoin<T>(parts: seq<seq<T>>, sep: T)
    requires parts != [] && forall p :: p in parts ==> sep !in p
    ensures Split(Join(parts, sep), sep) == parts
  {
    var s := Join(parts, sep);
    assert sep !in parts[0];
    if |parts| == 1 {
      assert parts == [parts[0]];
    } else {
      var rest := Join(parts[1..], sep);
      FindAfter(parts[0], sep, rest);
      assert s[..|parts[0]|] == parts[0] && s[|parts[0]| + 1..] == rest;
      SplitJoin(parts[1..], sep);
    }
  }

  lemma JoinCons<T>(part: seq<T>, parts: seq<seq<T>>, sep: T)
    requires parts != []
    ensures Join([part] + parts, sep) == part + [sep] + Join(parts, sep)
  {
    assert ([part] + parts)[1..] == parts;
  }

  lemma {:induction false} JoinSplit<T>(s: seq<T>, sep: T)
    ensures Join(Split(s, sep), sep) == s
    decreases |s|
  {
    var k := Find(s, sep);
    if k == |s| {
      assert Split(s, sep) == [s];
    } else {
      var rest := s[k + 1..];
      JoinSplit(rest, sep);
      JoinCons(s[..k], Split(rest, sep), sep);
      assert s == s[..k] + [sep] + rest;
    }
  }

  /** Where `part` first occurs. */
  function FindText(s: string, part: string): (k: Option<nat>)
    ensures k.Some? ==> k.value + |part| <= |s| && part <= s[k.value..]
    ensures k.Some? ==> forall j :: 0 <= j < k.value ==> !(part <= s[j..])
    ensures k.None? ==> forall j :: 0 <= j <= |s| ==> !(part <= s[j..])
  {
    if part <= s then Some(0)
    else if s == "" then None
    else
      var k := FindText(s[1..], part);
      assert forall j :: 1 <= j <= |s| ==> s[j..] == s[1..][j - 1..];
      assert s[0..] == s;
      if k.None? then None else Some(k.value + 1)
  }

  lemma {:induction false} FoundFirst(s: string, part: string, q: nat)
    requires q <= |s| && part <= s[q..] && forall k :: 0 <= k < q ==> !(part <= s[k..])
    ensures FindText(s, part) == Some(q)
  {
    IsFound(s, part, q);
    var k := FindText(s, part).value;
    assert part <= s[k..] && k <= q;
  }

  lemma {:induction false} IsFound(s: string, part: string, q: nat)
    requires q <= |s| && part <= s[q..]
    ensures FindText(s, part).Some? && FindText(s, part).value <= q
  {
  }

  lemma {:induction false} FoundInPrefix(a: string, b: string, part: string)
    requires part != "" && FindText(a, part).Some?
    ensures FindText(a + b, part) == FindText(a, part)
  {
    var q := FindText(a, part).value;
    assert (a + b)[q..] == a[q..] + b;
    assert part <= (a + b)[q..];
    forall k | 0 <= k < q ensures !(part <= (a + b)[k..]) {
      assert (a + b)[k..] == a[k..] + b;
      StartsWithin(a[k..], b, part);
    }
    FoundFirst(a + b, part, q);
  }

  lemma StartsWithin(a: string, b: string, part: string)
    requires |part| <= |a|
    ensures part <= a + b <==> part <= a
  {
    assert (a + b)[..|part|] == a[..|part|];
  }

  /** str(n), for a number that is not negative. */
  function Digits(n: nat): string {
    var last := ('0' as int + n % 10) as char;
    if n < 10 then [last] else Digits(n / 10) + [last]
  }

  /** int(s), for digits. */
  function DigitsValue(s: string): int {
    if s == "" then 0 else 10 * DigitsValue(s[..|s| - 1]) + (s[|s| - 1] as int - '0' as int)
  }

  lemma {:induction false} DigitsRoundTrip(n: nat)
    ensures DigitsValue(Digits(n)) == n
    ensures Digits(n) != "" && Digits(n)[0] != '-'
    decreases n
  {
    var s := Digits(n);
    assert s[|s| - 1] as int - '0' as int == n % 10;
    if n < 10 {
      assert s[..|s| - 1] == "";
    } else {
      DigitsRoundTrip(n / 10);
      assert s[..|s| - 1] == Digits(n / 10);
      assert s[0] == Digits(n / 10)[0];
    }
  }

  lemma Reassociate<T>(a: seq<T>, b: seq<T>, c: seq<T>)
    ensures a + b + c == a + (b + c)
  {
  }
}

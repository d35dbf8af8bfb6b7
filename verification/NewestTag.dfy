/**
 updates.py's tags: how a tag is taken apart, and which tag of the same shape is the newest.
 */
module NewestTag {
  import opened Text

  datatype Tag = Tag(prefix: string, nums: seq<int>, suffix: string)

  // --- Taking a tag apart ---

  predicate AllDigits(s: string) {
    forall i :: 0 <= i < |s| ==> IsDigit(s[i])
  }

  predicate IsNumber(s: string) {
    s != "" && AllDigits(s)
  }

  function LeadingDigits(s: string): (k: nat)
    ensures k <= |s| && AllDigits(s[..k])
    ensures k < |s| ==> !IsDigit(s[k])
  {
    if s == "" || !IsDigit(s[0]) then 0 else 1 + LeadingDigits(s[1..])
  }

  /** The text starts with another component: a dot and a digit. */
  predicate GoesOn(s: string) {
    |s| >= 2 && s[0] == '.' && IsDigit(s[1])
  }

  /** \d+(?:\.\d+)* takes as much as it can: the components it takes. */
  function Components(s: string): seq<string>
    decreases |s|
  {
    var k := LeadingDigits(s);
    if GoesOn(s[k..]) then [s[..k]] + Components(s[k + 1..]) else [s[..k]]
  }

  /** What is left behind the components. */
  function Behind(s: string): string
    decreases |s|
  {
    var k := LeadingDigits(s);
    if GoesOn(s[k..]) then Behind(s[k + 1..]) else s[k..]
  }

  function Values(parts: seq<string>): seq<int> {
    if parts == [] then [] else [DigitsValue(parts[0])] + Values(parts[1..])
  }

  /** $ also matches before a final newline. */
  function WithoutLastNewline(s: string): string {
    if s != "" && s[|s| - 1] == '\n' then s[..|s| - 1] else s
  }

  function Prefix(s: string): string {
    if s != "" && s[0] == 'v' then "v" else ""
  }

  function ParseTag(tag: string): Option<Tag> {
    var body := WithoutLastNewline(tag);
    var rest := body[|Prefix(body)|..];
    if rest == "" || !IsDigit(rest[0]) || '\n' in Behind(rest) then None
    else Some(Tag(Prefix(body), Values(Components(rest)), Behind(rest)))
  }

  lemma {:induction false} ComponentsAreNumbers(s: string)
    requires s != "" && IsDigit(s[0])
    ensures Components(s) != [] && forall p :: p in Components(s) ==> IsNumber(p)
    decreases |s|
  {
    var k := LeadingDigits(s);
    if GoesOn(s[k..]) {
      assert s[k..][1] == s[k + 1..][0];
      ComponentsAreNumbers(s[k + 1..]);
    }
  }

  lemma {:induction false} ComponentsGiveBack(s: string)
    ensures Components(s) != [] && s == Join(Components(s), '.') + Behind(s)
    decreases |s|
  {
    var k := LeadingDigits(s);
    if GoesOn(s[k..]) {
      var rest := s[k + 1..];
      ComponentsGiveBack(rest);
      assert Components(s) == [s[..k]] + Components(rest) && Behind(s) == Behind(rest);
      JoinMore(s[..k], Components(rest), Behind(rest));
      CutAtDot(s, k);
    } else {
      assert Components(s) == [s[..k]] && Behind(s) == s[k..];
      assert s[..k] + s[k..] == s;
    }
  }

  lemma CutAtDot(s: string, k: nat)
    requires k <= |s| && GoesOn(s[k..])
    ensures s == s[..k] + ['.'] + s[k + 1..]
  {
    assert s[k] == s[k..][0];
  }

  lemma JoinMore(part: string, parts: seq<string>, suffix: string)
    requires parts != []
    ensures Join([part] + parts, '.') + suffix == part + ['.'] + (Join(parts, '.') + suffix)
  {
    assert ([part] + parts)[1..] == parts;
  }

  lemma {:induction false} BehindIsNoNumber(s: string)
    ensures (Behind(s) != "" ==> !IsDigit(Behind(s)[0])) && !GoesOn(Behind(s))
    decreases |s|
  {
    var k := LeadingDigits(s);
    if GoesOn(s[k..]) {
      BehindIsNoNumber(s[k + 1..]);
    } else {
      assert s[k..] != "" ==> s[k..][0] == s[k];
    }
  }

  /** A text the pattern's three groups match in this order, as far as each can reach. */
  ghost predicate Matches(parts: seq<string>, suffix: string) {
    && parts != [] && (forall p :: p in parts ==> IsNumber(p))
    && (suffix != "" ==> !IsDigit(suffix[0])) && !GoesOn(suffix)
  }

  lemma {:induction false} DigitsThen(digits: string, rest: string)
    requires AllDigits(digits) && (rest != "" ==> !IsDigit(rest[0]))
    ensures LeadingDigits(digits + rest) == |digits|
  {
    var s := digits + rest;
    var k := LeadingDigits(s);
    assert forall i :: 0 <= i < |digits| ==> s[i] == digits[i];
    assert forall i :: 0 <= i < k ==> s[..k][i] == s[i];
    assert rest != "" ==> s[|digits|] == rest[0];
  }

  lemma {:induction false} OneMoreComponent(part: string, rest: string)
    requires IsNumber(part) && rest != "" && IsDigit(rest[0])
    ensures Components(part + ['.'] + rest) == [part] + Components(rest)
    ensures Behind(part + ['.'] + rest) == Behind(rest)
  {
    var s := part + ['.'] + rest;
    assert s == part + (['.'] + rest);
    DigitsThen(part, ['.'] + rest);
    assert s[|part|..] == ['.'] + rest && s[..|part|] == part && s[|part| + 1..] == rest;
  }

  lemma LastComponent(part: string, suffix: string)
    requires IsNumber(part) && (suffix != "" ==> !IsDigit(suffix[0])) && !GoesOn(suffix)
    ensures Components(part + suffix) == [part] && Behind(part + suffix) == suffix
  {
    DigitsThen(part, suffix);
    assert (part + suffix)[|part|..] == suffix && (part + suffix)[..|part|] == part;
  }

  lemma {:induction false} ComponentsAreUnique(parts: seq<string>, suffix: string)
    requires Matches(parts, suffix)
    ensures Components(Join(parts, '.') + suffix) == parts && Behind(Join(parts, '.') + suffix) == suffix
  {
    assert IsNumber(parts[0]);
    if |parts| == 1 {
      LastComponent(parts[0], suffix);
      assert parts == [parts[0]];
    } else {
      var rest := Join(parts[1..], '.') + suffix;
      assert IsNumber(parts[1]);
      StartsAsFirst(parts[1..], suffix);
      ComponentsAreUnique(parts[1..], suffix);
      OneMoreComponent(parts[0], rest);
      assert parts == [parts[0]] + parts[1..];
      JoinMore(parts[0], parts[1..], suffix);
      Reassociate(parts[0], ['.'], rest);
    }
  }

  lemma StartsAsFirst(parts: seq<string>, suffix: string)
    requires parts != [] && parts[0] != ""
    ensures var s := Join(parts, '.') + suffix; s != "" && s[0] == parts[0][0]
  {
  }

  /** A tag put together from its pieces, with or without a final newline, comes apart into them. */
  lemma ParsesWhatIsBuilt(prefix: string, parts: seq<string>, suffix: string, tail: string)
    requires (prefix == "" || prefix == "v") && Matches(parts, suffix)
    requires '\n' !in suffix && (tail == "" || tail == "\n")
    ensures ParseTag(prefix + Join(parts, '.') + suffix + tail) == Some(Tag(prefix, Values(parts), suffix))
  {
    var numbers := Join(parts, '.');
    var rest := numbers + suffix;
    var tag := prefix + numbers + suffix + tail;
    assert IsNumber(parts[0]);
    assert numbers[0] == parts[0][0] == rest[0];
    LastIsNoNewline(parts, suffix);
    assert rest[|rest| - 1] != '\n';
    var body := WithoutLastNewline(tag);
    assert tag == prefix + rest + tail;
    assert body == prefix + rest by {
      if tail == "" {
        assert tag == prefix + rest && tag[|tag| - 1] == rest[|rest| - 1];
      } else {
        assert tag[|tag| - 1] == '\n' && tag[..|tag| - 1] == prefix + rest;
      }
    }
    assert Prefix(body) == prefix by {
      assert body[0] == if prefix == "" then rest[0] else 'v';
    }
    assert body[|prefix|..] == rest;
    ComponentsAreUnique(parts, suffix);
  }

  function Printed(nums: seq<nat>): seq<string> {
    if nums == [] then [] else [Digits(nums[0])] + Printed(nums[1..])
  }

  lemma {:induction false} DigitsAreDigits(n: nat)
    ensures IsNumber(Digits(n))
    decreases n
  {
    if n >= 10 {
      DigitsAreDigits(n / 10);
    }
  }

  lemma {:induction false} PrintedNumbers(nums: seq<nat>)
    ensures Values(Printed(nums)) == nums && forall p :: p in Printed(nums) ==> IsNumber(p)
  {
    if nums == [] {
    } else {
      PrintedNumbers(nums[1..]);
      DigitsAreDigits(nums[0]);
      DigitsRoundTrip(nums[0]);
      assert Printed(nums)[1..] == Printed(nums[1..]);
      assert nums == [nums[0]] + nums[1..];
    }
  }

  /** A printed version is read back: prefix, numbers and suffix, for every suffix that does not start
      as a number would go on. */
  lemma PrintedTagParses(prefix: string, nums: seq<nat>, suffix: string)
    requires (prefix == "" || prefix == "v") && nums != []
    requires '\n' !in suffix && (suffix != "" ==> !IsDigit(suffix[0])) && !GoesOn(suffix)
    ensures ParseTag(prefix + Join(Printed(nums), '.') + suffix) == Some(Tag(prefix, nums, suffix))
  {
    PrintedNumbers(nums);
    ParsesWhatIsBuilt(prefix, Printed(nums), suffix, "");
    var tag := prefix + Join(Printed(nums), '.') + suffix;
    assert tag + "" == tag;
  }

  lemma {:induction false} LastIsNoNewline(parts: seq<string>, suffix: string)
    requires Matches(parts, suffix) && '\n' !in suffix
    ensures var rest := Join(parts, '.') + suffix; rest != "" && rest[|rest| - 1] != '\n'
  {
    assert IsNumber(parts[0]);
    if suffix == "" && |parts| > 1 {
      LastIsNoNewline(parts[1..], suffix);
      var rest := Join(parts[1..], '.');
      assert Join(parts, '.') + suffix == parts[0] + ['.'] + rest;
      assert rest + suffix == rest;
    } else if suffix == "" {
      assert Join(parts, '.') + suffix == parts[0];
    } else {
      assert suffix[|suffix| - 1] in suffix;
    }
  }

  /** Every tag that parses is one put together so, from just one choice of pieces. */
  lemma ParsedIsBuilt(tag: string)
    requires ParseTag(tag).Some?
    ensures var t := ParseTag(tag).value;
            var parts := Components(WithoutLastNewline(tag)[|t.prefix|..]);
            && (t.prefix == "" || t.prefix == "v") && '\n' !in t.suffix
            && Matches(parts, t.suffix) && t.nums == Values(parts)
            && WithoutLastNewline(tag) == t.prefix + Join(parts, '.') + t.suffix
  {
    var body := WithoutLastNewline(tag);
    var prefix := Prefix(body);
    var rest := body[|prefix|..];
    ComponentsAreNumbers(rest);
    ComponentsGiveBack(rest);
    BehindIsNoNumber(rest);
    assert body == prefix + rest;
    Reassociate(prefix, Join(Components(rest), '.'), Behind(rest));
  }

  // --- Comparing versions ---

  /** Python's order on tuples. */
  predicate Less(a: seq<int>, b: seq<int>) {
    if b == [] then false
    else if a == [] then true
    else a[0] < b[0] || (a[0] == b[0] && Less(a[1..], b[1..]))
  }

  /** The order is decided where the two first differ. */
  lemma {:induction false} LessIsFirstDifference(a: seq<int>, b: seq<int>)
    ensures Less(a, b) <==> exists k: nat ::
                              k <= |a| && k < |b| && a[..k] == b[..k] && (k == |a| || a[k] < b[k])
  {
    if a == [] || b == [] {
      assert a[..0] == b[..0] == [];
    } else if a[0] != b[0] {
      assert a[..0] == b[..0] == [];
      forall k: nat | 0 < k <= |a| && k <= |b| ensures a[..k] != b[..k] {
        assert a[..k][0] == a[0] && b[..k][0] == b[0];
      }
    } else {
      LessIsFirstDifference(a[1..], b[1..]);
      if Less(a[1..], b[1..]) {
        var k: nat :| k <= |a[1..]| && k < |b[1..]| && a[1..][..k] == b[1..][..k] && (k == |a[1..]| || a[1..][k] < b[1..][k]);
        assert a[..k + 1] == [a[0]] + a[1..][..k] && b[..k + 1] == [b[0]] + b[1..][..k];
      }
      forall k: nat | k <= |a| && k < |b| && a[..k] == b[..k] && (k == |a| || a[k] < b[k])
        ensures Less(a[1..], b[1..])
      {
        assert k > 0;
        assert a[1..][..k - 1] == a[..k][1..] == b[..k][1..] == b[1..][..k - 1];
        assert k < |a| ==> a[1..][k - 1] == a[k] && b[1..][k - 1] == b[k];
      }
    }
  }

  lemma {:induction false} LessIsTransitive(a: seq<int>, b: seq<int>, c: seq<int>)
    requires Less(a, b) && Less(b, c)
    ensures Less(a, c)
  {
    if a != [] && a[0] == b[0] == c[0] {
      LessIsTransitive(a[1..], b[1..], c[1..]);
    }
  }

  /** Of two versions exactly one is less, or they are equal. */
  lemma {:induction false} LessIsTotal(a: seq<int>, b: seq<int>)
    ensures a == b ==> !Less(a, b) && !Less(b, a)
    ensures a != b ==> (Less(a, b) <==> !Less(b, a))
  {
    if a != [] && b != [] {
      LessIsTotal(a[1..], b[1..]);
      assert a == [a[0]] + a[1..] && b == [b[0]] + b[1..];
    }
  }

  // --- Choosing ---

  /** An ASCII letter in lower case. */
  function Lower(c: char): char {
    if 'A' <= c <= 'Z' then (c as int + 32) as char else c
  }

  function Lowered(s: string): string {
    seq(|s|, k requires 0 <= k < |s| => Lower(s[k]))
  }

  const PRERELEASE := ["rc", "beta", "alpha", "dev", "pre", "preview", "nightly", "test", "snapshot", "edge"]

  predicate IsPrerelease(suffix: string) {
    exists i :: 0 <= i < |PRERELEASE| && FindText(Lowered(suffix), PRERELEASE[i]).Some?
  }

  /** The word stands in the text at k, in letters of either case. */
  predicate Spells(s: string, k: nat, word: string) {
    && k + |word| <= |s|
    && forall j :: 0 <= j < |word| ==> s[k + j] == word[j] || ('A' <= s[k + j] <= 'Z' && s[k + j] as int + 32 == word[j] as int)
  }

  predicate IsSmall(word: string) {
    forall j :: 0 <= j < |word| ==> 'a' <= word[j] <= 'z'
  }

  lemma LoweredSpells(s: string, k: nat, word: string)
    requires k <= |s| && IsSmall(word)
    ensures word <= Lowered(s)[k..] <==> Spells(s, k, word)
  {
    var lower := Lowered(s);
    if word <= lower[k..] {
      assert forall j :: 0 <= j < |word| ==> word[j] == lower[k..][j] == lower[k + j];
    }
    if Spells(s, k, word) {
      assert forall j :: 0 <= j < |word| ==> lower[k..][j] == word[j];
    }
  }

  lemma FoundLowered(s: string, word: string)
    requires IsSmall(word)
    ensures FindText(Lowered(s), word).Some? <==> exists k: nat :: Spells(s, k, word)
  {
    forall k: nat | k <= |s| ensures word <= Lowered(s)[k..] <==> Spells(s, k, word) {
      LoweredSpells(s, k, word);
    }
    if FindText(Lowered(s), word).Some? {
      assert Spells(s, FindText(Lowered(s), word).value, word);
    }
  }

  lemma WordsAreSmall()
    ensures forall i :: 0 <= i < |PRERELEASE| ==> IsSmall(PRERELEASE[i])
  {
  }

  /** A pre-release is a suffix with one of ten words anywhere in it, in letters of either case. */
  lemma PrereleaseExactly(suffix: string)
    ensures IsPrerelease(suffix) <==>
            exists word, k: nat ::
              word in ["rc", "beta", "alpha", "dev", "pre", "preview", "nightly", "test", "snapshot", "edge"]
              && Spells(suffix, k, word)
  {
    WordsAreSmall();
    forall i | 0 <= i < |PRERELEASE|
      ensures FindText(Lowered(suffix), PRERELEASE[i]).Some? <==> exists k: nat :: Spells(suffix, k, PRERELEASE[i])
    {
      FoundLowered(suffix, PRERELEASE[i]);
    }
    if IsPrerelease(suffix) {
      var i :| 0 <= i < |PRERELEASE| && FindText(Lowered(suffix), PRERELEASE[i]).Some?;
      var k: nat :| Spells(suffix, k, PRERELEASE[i]);
      assert PRERELEASE[i] in PRERELEASE;
    }
  }

  predicate SameShape(a: Tag, b: Tag) {
    a.prefix == b.prefix && a.suffix == b.suffix && |a.nums| == |b.nums|
  }

  /** A release of the current tag's shape that is newer than it. */
  predicate IsCandidate(current: string, tag: string) {
    && ParseTag(current).Some? && !IsPrerelease(ParseTag(current).value.suffix)
    && ParseTag(tag).Some? && SameShape(ParseTag(current).value, ParseTag(tag).value)
    && Less(ParseTag(current).value.nums, ParseTag(tag).value.nums)
  }

  /** As many numbers, and greater where they first differ. */
  ghost predicate IsNewer(newer: seq<int>, nums: seq<int>) {
    |newer| == |nums| && exists k: nat :: k < |nums| && newer[..k] == nums[..k] && newer[k] > nums[k]
  }

  lemma NewerExactly(newer: seq<int>, nums: seq<int>)
    requires |newer| == |nums|
    ensures Less(nums, newer) <==> IsNewer(newer, nums)
  {
    LessIsFirstDifference(nums, newer);
  }

  /** What counts is a tag with the same prefix and suffix and as many numbers, which are newer. */
  lemma {:induction false} CandidateExactly(prefix: string, nums: seq<nat>, suffix: string, tag: string)
    requires (prefix == "" || prefix == "v") && nums != [] && !IsPrerelease(suffix)
    requires '\n' !in suffix && (suffix != "" ==> !IsDigit(suffix[0])) && !GoesOn(suffix)
    ensures IsCandidate(prefix + Join(Printed(nums), '.') + suffix, tag) <==>
            exists newer: seq<int> :: ParseTag(tag) == Some(Tag(prefix, newer, suffix)) && IsNewer(newer, nums)
  {
    PrintedTagParses(prefix, nums, suffix);
    if ParseTag(tag).Some? && |ParseTag(tag).value.nums| == |nums| {
      NewerExactly(ParseTag(tag).value.nums, nums);
    }
  }

  function Version(tag: string): seq<int>
    requires ParseTag(tag).Some?
  {
    ParseTag(tag).value.nums
  }

  /** The first listed candidate than which no candidate is newer. */
  ghost predicate IsFirstNewest(current: string, tags: seq<string>, i: nat) {
    && i < |tags| && IsCandidate(current, tags[i])
    && (forall j :: 0 <= j < |tags| && IsCandidate(current, tags[j]) ==> !Less(Version(tags[i]), Version(tags[j])))
    && (forall j :: 0 <= j < i && IsCandidate(current, tags[j]) ==> Less(Version(tags[j]), Version(tags[i])))
  }

  ghost predicate IsAnswer(current: string, tags: seq<string>, answer: Option<string>) {
    match answer
    case None => forall j :: 0 <= j < |tags| ==> !IsCandidate(current, tags[j])
    case Some(tag) => exists i: nat :: IsFirstNewest(current, tags, i) && tags[i] == tag
  }

  /** There is only one answer, so what follows holds of the one the program finds. */
  lemma AnswerIsUnique(current: string, tags: seq<string>, a: Option<string>, b: Option<string>)
    requires IsAnswer(current, tags, a) && IsAnswer(current, tags, b)
    ensures a == b
  {
    if a.Some? && b.Some? {
      var i: nat :| IsFirstNewest(current, tags, i) && tags[i] == a.value;
      var j: nat :| IsFirstNewest(current, tags, j) && tags[j] == b.value;
      assert i == j;
    }
  }

  lemma OnlyAnswer(current: string, tags: seq<string>, answer: Option<string>)
    requires IsAnswer(current, tags, answer)
    ensures forall other :: IsAnswer(current, tags, other) ==> other == answer
  {
    forall other | IsAnswer(current, tags, other) ensures other == answer {
      AnswerIsUnique(current, tags, answer, other);
    }
  }

  /** The second pre-release test never decides anything: the suffix was tested already. */
  lemma SecondTestIsRedundant(current: string, tag: string)
    requires IsCandidate(current, tag)
    ensures !IsPrerelease(ParseTag(tag).value.suffix)
  {
    assert SameShape(ParseTag(current).value, ParseTag(tag).value);
  }

  /** Moving to the answer settles it: from there the same list holds nothing newer. */
  lemma AnswerIsUpToDate(current: string, tags: seq<string>, tag: string)
    requires IsAnswer(current, tags, Some(tag))
    ensures IsAnswer(tag, tags, None)
  {
    var i: nat :| IsFirstNewest(current, tags, i) && tags[i] == tag;
    forall j | 0 <= j < |tags| ensures !IsCandidate(tag, tags[j]) {
      if IsCandidate(tag, tags[j]) {
        LessIsTransitive(Version(current), Version(tag), Version(tags[j]));
      }
    }
  }

  /** A longer list never gives an older answer, and adding tags never takes the answer away. */
  lemma MoreTagsNeverOlder(current: string, tags: seq<string>, more: seq<string>, a: string, b: Option<string>)
    requires forall t :: t in tags ==> t in more
    requires IsAnswer(current, tags, Some(a)) && IsAnswer(current, more, b)
    ensures b.Some? && IsCandidate(current, a) && IsCandidate(current, b.value) && !Less(Version(b.value), Version(a))
  {
    var i: nat :| IsFirstNewest(current, tags, i) && tags[i] == a;
    assert a in more;
    var k :| 0 <= k < |more| && more[k] == a;
    assert IsCandidate(current, more[k]);
    if b.Some? {
      var j: nat :| IsFirstNewest(current, more, j) && more[j] == b.value;
    }
  }

  // --- The loop ---

  /** The loop's state after the tags so far. */
  ghost predicate IsBest(current: string, tags: seq<string>, best: Option<string>, nums: seq<int>) {
    && ParseTag(current).Some? && !IsPrerelease(ParseTag(current).value.suffix)
    && IsAnswer(current, tags, best)
    && (best.Some? ==> ParseTag(best.value).Some?)
    && nums == if best.Some? then Version(best.value) else Version(current)
  }

  /** The test inside the loop. */
  predicate Beats(current: string, tag: string, nums: seq<int>)
    requires ParseTag(current).Some?
  {
    && ParseTag(tag).Some? && SameShape(ParseTag(current).value, ParseTag(tag).value)
    && Less(nums, Version(tag))
  }

  lemma KeepsNone(current: string, tags: seq<string>, tag: string)
    requires IsBest(current, tags, None, if ParseTag(current).Some? then Version(current) else [])
    requires !Beats(current, tag, Version(current))
    ensures IsAnswer(current, tags + [tag], None)
  {
    var all := tags + [tag];
    forall j | 0 <= j < |all| ensures !IsCandidate(current, all[j]) {
      if j < |tags| {
        assert all[j] == tags[j];
      }
    }
  }

  lemma KeepsBest(current: string, tags: seq<string>, i: nat, tag: string)
    requires IsFirstNewest(current, tags, i) && !Beats(current, tag, Version(tags[i]))
    ensures IsFirstNewest(current, tags + [tag], i)
  {
    var all := tags + [tag];
    assert all[i] == tags[i];
    forall j | 0 <= j < |all| && IsCandidate(current, all[j]) ensures !Less(Version(tags[i]), Version(all[j])) {
      if j < |tags| {
        assert all[j] == tags[j];
      }
    }
    assert forall j :: 0 <= j < i ==> all[j] == tags[j];
  }

  lemma FirstBest(current: string, tags: seq<string>, tag: string)
    requires forall j :: 0 <= j < |tags| ==> !IsCandidate(current, tags[j])
    requires IsCandidate(current, tag)
    ensures IsFirstNewest(current, tags + [tag], |tags|)
  {
    LessIsTotal(Version(tag), Version(tag));
    assert forall j :: 0 <= j < |tags| ==> (tags + [tag])[j] == tags[j];
  }

  lemma Ordered(v: seq<int>, best: seq<int>, newer: seq<int>)
    requires !Less(best, v) && Less(best, newer)
    ensures Less(v, newer) && !Less(newer, v)
  {
    LessIsTotal(v, best);
    if v != best {
      LessIsTransitive(v, best, newer);
    }
    LessIsTotal(v, newer);
  }

  lemma NewBest(current: string, tags: seq<string>, i: nat, tag: string)
    requires IsFirstNewest(current, tags, i) && Beats(current, tag, Version(tags[i]))
    ensures IsFirstNewest(current, tags + [tag], |tags|)
  {
    var all := tags + [tag];
    LessIsTransitive(Version(current), Version(tags[i]), Version(tag));
    LessIsTotal(Version(tag), Version(tag));
    forall j | 0 <= j < |tags| && IsCandidate(current, all[j])
      ensures Less(Version(all[j]), Version(tag)) && !Less(Version(tag), Version(all[j]))
    {
      assert all[j] == tags[j];
      Ordered(Version(tags[j]), Version(tags[i]), Version(tag));
    }
  }

  lemma OneMoreTag(current: string, tags: seq<string>, best: Option<string>, nums: seq<int>, tag: string)
    requires IsBest(current, tags, best, nums)
    ensures Beats(current, tag, nums) ==> IsBest(current, tags + [tag], Some(tag), Version(tag))
    ensures !Beats(current, tag, nums) ==> IsBest(current, tags + [tag], best, nums)
  {
    var all := tags + [tag];
    assert all[|tags|] == tag;
    if best.None? {
      if Beats(current, tag, nums) {
        FirstBest(current, tags, tag);
      } else {
        KeepsNone(current, tags, tag);
      }
    } else {
      var i: nat :| IsFirstNewest(current, tags, i) && tags[i] == best.value;
      assert all[i] == tags[i];
      if Beats(current, tag, nums) {
        NewBest(current, tags, i, tag);
      } else {
        KeepsBest(current, tags, i, tag);
      }
    }
  }

  /** From a text that is no version, or from a pre-release, there is no answer. */
  lemma NothingToCompare(current: string, tags: seq<string>)
    requires ParseTag(current).None? || IsPrerelease(ParseTag(current).value.suffix)
    ensures IsAnswer(current, tags, None)
  {
  }

  lemma StartIsBest(current: string)
    requires ParseTag(current).Some? && !IsPrerelease(ParseTag(current).value.suffix)
    ensures IsBest(current, [], None, Version(current))
  {
  }

  lemma BestIsAnswer(current: string, tags: seq<string>, best: Option<string>, nums: seq<int>)
    requires IsBest(current, tags, best, nums)
    ensures IsAnswer(current, tags, best)
    ensures forall other :: IsAnswer(current, tags, other) ==> other == best
  {
    OnlyAnswer(current, tags, best);
  }

  lemma NextTag(current: string, tags: seq<string>, n: nat, best: Option<string>, nums: seq<int>)
    requires n < |tags| && IsBest(current, tags[..n], best, nums)
    ensures Beats(current, tags[n], nums) ==> IsBest(current, tags[..n + 1], Some(tags[n]), Version(tags[n]))
    ensures !Beats(current, tags[n], nums) ==> IsBest(current, tags[..n + 1], best, nums)
  {
    assert tags[..n + 1] == tags[..n] + [tags[n]];
    OneMoreTag(current, tags[..n], best, nums, tags[n]);
  }

  /** newest_same_shape. */
  method NewestSameShape(current: string, tags: seq<string>) returns (best: Option<string>)
    ensures IsAnswer(current, tags, best)
    ensures forall other :: IsAnswer(current, tags, other) ==> other == best
  {
    best := None;
    var cur := ParseTag(current);
    if cur.None? || IsPrerelease(cur.value.suffix) {
      NothingToCompare(current, tags);
      OnlyAnswer(current, tags, best);
      return;
    }
    var bestNums := cur.value.nums;
    StartIsBest(current);
    assert tags[..0] == [];
    for n := 0 to |tags|
      invariant IsBest(current, tags[..n], best, bestNums)
    {
      var p := ParseTag(tags[n]);
      NextTag(current, tags, n, best, bestNums);
      if p.None? || !SameShape(cur.value, p.value) {
        continue;
      }
      if IsPrerelease(p.value.suffix) {
        continue;
      }
      assert Version(tags[n]) == p.value.nums;
      assert Beats(current, tags[n], bestNums) <==> Less(bestNums, p.value.nums);
      if Less(bestNums, p.value.nums) {
        best, bestNums := Some(tags[n]), p.value.nums;
      }
    }
    assert tags[..|tags|] == tags;
    BestIsAnswer(current, tags, best, bestNums);
  }

  /** No answer, from a release, means that no listed tag of its shape is newer. */
  lemma NoAnswerMeansUpToDate(current: string, tags: seq<string>)
    requires ParseTag(current).Some? && !IsPrerelease(ParseTag(current).value.suffix)
    ensures IsAnswer(current, tags, None) <==>
            forall t :: t in tags && ParseTag(t).Some? && SameShape(ParseTag(current).value, ParseTag(t).value) ==>
                          Version(t) == Version(current) || Less(Version(t), Version(current))
  {
    forall t | t in tags && ParseTag(t).Some? && SameShape(ParseTag(current).value, ParseTag(t).value)
      ensures IsCandidate(current, t) <==> !(Version(t) == Version(current) || Less(Version(t), Version(current)))
    {
      LessIsTotal(Version(t), Version(current));
    }
    if IsAnswer(current, tags, None) {
      forall t | t in tags ensures !IsCandidate(current, t) {
        var j :| 0 <= j < |tags| && tags[j] == t;
      }
    }
  }
}

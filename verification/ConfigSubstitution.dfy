/**
 apply-config.py's placeholder substitution. The token WG_PRIVATE_KEY_PLACEHOLDER ends in the
 token PLACEHOLDER, so the two replacements only work in one order, and only if an inserted
 key makes no new PLACEHOLDER with the text around it.
 */
module ConfigSubstitution {
  import opened Text

  const TOKEN := "PLACEHOLDER"
  const WG_TOKEN := "WG_PRIVATE_KEY_PLACEHOLDER"

  /** s.replace(old, new): every occurrence from the left, never overlapping. */
  function Replace(s: string, token: string, value: string): string
    requires token != ""
    decreases |s|
  {
    if s == "" then ""
    else if token <= s then value + Replace(s[|token|..], token, value)
    else [s[0]] + Replace(s[1..], token, value)
  }

  /** One pass from the left: the key for a full WG token, the password for any other PLACEHOLDER. */
  function OnePass(s: string, key: string, password: string): string
    decreases |s|
  {
    if s == "" then ""
    else if WG_TOKEN <= s then key + OnePass(s[|WG_TOKEN|..], key, password)
    else if TOKEN <= s then password + OnePass(s[|TOKEN|..], key, password)
    else [s[0]] + OnePass(s[1..], key, password)
  }

  function TwoPasses(s: string, key: string, password: string): string {
    Replace(Replace(s, WG_TOKEN, key), TOKEN, password)
  }

  /** A text that makes no PLACEHOLDER, alone or with a part of one before and after it. */
  ghost predicate IsSafe(insert: string) {
    forall i, j :: 0 <= i < |TOKEN| && 0 < j <= |TOKEN| ==> !Contains(TOKEN[..i] + insert + TOKEN[j..], TOKEN)
  }

  /** A text that makes no WG token with parts of one before and after it, the part after it ending
      within that token's PLACEHOLDER. */
  ghost predicate MakesNoWgToken(insert: string) {
    forall i, j :: 0 <= i < |WG_TOKEN| && |WG_TOKEN| - |TOKEN| < j <= |WG_TOKEN| ==>
                     !Contains(WG_TOKEN[..i] + insert + WG_TOKEN[j..], WG_TOKEN)
  }

  // --- The tokens ---

  lemma TokenLetters()
    ensures forall i :: 0 < i < |TOKEN| ==> TOKEN[i] != 'P'
    ensures TOKEN[0] == 'P' && forall i :: 0 <= i < |TOKEN| ==> TOKEN[i] != 'W'
    ensures WG_TOKEN[0] == 'W' && forall i :: 0 < i < |WG_TOKEN| ==> WG_TOKEN[i] != 'W'
    ensures |WG_TOKEN| > |TOKEN| && WG_TOKEN[|WG_TOKEN| - |TOKEN|..] == TOKEN
  {
  }

  // --- Occurrences ---

  lemma ContainsAt(s: string, part: string, k: nat)
    requires k <= |s| && part <= s[k..]
    ensures Contains(s, part)
  {
  }

  lemma PrefixOfConcat(part: string, a: string, b: string)
    requires part <= a + b && |part| <= |a|
    ensures part <= a
  {
    assert part == (a + b)[..|part|] == a[..|part|];
  }

  lemma DropPrefix(part: string, a: string, b: string)
    requires part <= a + b && |a| <= |part|
    ensures part[|a|..] <= b && part[..|a|] == a
  {
    assert part == (a + b)[..|part|];
    assert part[|a|..] == b[..|part| - |a|];
  }

  /** How much of a token of length n fits into m characters. */
  function AtMost(m: nat, n: nat): nat {
    if m < n then m else n
  }

  /** A token that starts m characters before an insert and goes on into it is there whatever follows. */
  lemma ThroughInsert(token: string, m: nat, insert: string, rest: string)
    requires m <= |token| && token[m..] <= insert + rest
    ensures Contains(token[..m] + insert + token[AtMost(m + |insert|, |token|)..], token)
  {
    var around := token[..m] + insert + token[AtMost(m + |insert|, |token|)..];
    assert token == token[..m] + token[m..];
    if m + |insert| < |token| {
      DropPrefix(token[m..], insert, rest);
      assert token[m..][|insert|..] == token[m + |insert|..];
      assert around == token;
    } else {
      PrefixOfConcat(token[m..], insert, rest);
      assert around == token[..m] + insert;
    }
    assert around[0..] == around;
    ContainsAt(around, token, 0);
  }

  /** The same for one that starts inside the insert. */
  lemma FromInsert(token: string, k: nat, insert: string, rest: string)
    requires k <= |insert| && token <= insert[k..] + rest
    ensures Contains(token[..0] + insert + token[AtMost(|insert| - k, |token|)..], token)
  {
    var tail := insert[k..];
    var j := AtMost(|tail|, |token|);
    var around := token[..0] + insert + token[j..];
    assert around[k..] == tail + token[j..];
    if j == |token| {
      PrefixOfConcat(token, tail, rest);
    } else {
      DropPrefix(token, tail, rest);
      assert tail + token[j..] == token;
    }
    ContainsAt(around, token, k);
  }

  /** An insert in which a PLACEHOLDER starts, whatever follows it, is not safe. */
  lemma StartsInside(insert: string, rest: string, k: nat)
    requires k < |insert| && TOKEN <= (insert + rest)[k..]
    ensures !IsSafe(insert)
  {
    assert (insert + rest)[k..] == insert[k..] + rest;
    FromInsert(TOKEN, k, insert, rest);
  }

  /** Replacing passes over a safe insert unchanged. */
  lemma {:induction false} ReplacePassesOver(insert: string, rest: string, password: string, k: nat)
    requires IsSafe(insert) && k <= |insert|
    ensures Replace(insert[k..] + rest, TOKEN, password) == insert[k..] + Replace(rest, TOKEN, password)
    decreases |insert| - k
  {
    var s := insert[k..] + rest;
    if k == |insert| {
      assert s == rest;
    } else {
      assert (insert + rest)[k..] == s;
      if TOKEN <= s {
        StartsInside(insert, rest, k);
        assert false;
      }
      ReplacePassesOver(insert, rest, password, k + 1);
      assert s[1..] == insert[k + 1..] + rest;
      assert insert[k..] == [insert[k]] + insert[k + 1..];
    }
  }

  /** Up to its first token, a text is left alone. */
  lemma {:induction false} ReplaceSkips(s: string, token: string, value: string, q: nat)
    requires token != "" && q <= |s| && forall k :: 0 <= k < q ==> !(token <= s[k..])
    ensures Replace(s, token, value) == s[..q] + Replace(s[q..], token, value)
  {
    if q == 0 {
    } else {
      forall k | 0 <= k < q - 1 ensures !(token <= s[1..][k..]) {
        assert s[1..][k..] == s[k + 1..];
      }
      ReplaceSkips(s[1..], token, value, q - 1);
      assert s[1..][q - 1..] == s[q..];
      assert s[..q] == [s[0]] + s[1..][..q - 1];
      assert !(token <= s[0..]) && s[0..] == s;
    }
  }

  lemma ReplaceAtFirst(s: string, token: string, value: string)
    requires token != ""
    ensures var found := FindText(s, token);
            Replace(s, token, value) ==
              if found.None? then s
              else s[..found.value] + (value + Replace(s[found.value..][|token|..], token, value))
  {
    var found := FindText(s, token);
    var q := if found.None? then |s| else found.value;
    ReplaceSkips(s, token, value, q);
    assert found.None? ==> s[..q] == s && s + "" == s;
  }

  lemma StartInEither(part: string, a: string, b: string)
    requires part <= a + b
    ensures part <= a || (|a| < |part| && part[|a|..] <= b)
  {
    if |part| <= |a| {
      PrefixOfConcat(part, a, b);
    } else {
      DropPrefix(part, a, b);
    }
  }

  /** A PLACEHOLDER at the start after replacing was there before, or runs into an insert. */
  lemma RunsIntoInsert(s: string, token: string, insert: string) returns (q: nat, rest: string)
    requires token != "" && !(token <= s) && TOKEN <= Replace(s, token, insert)
    ensures TOKEN <= s || (0 < q < |TOKEN| && TOKEN[q..] <= insert + rest)
  {
    ReplaceAtFirst(s, token, insert);
    q, rest := 0, "";
    var found := FindText(s, token);
    if found.Some? {
      q := found.value;
      rest := Replace(s[q..][|token|..], token, insert);
      assert s[0..] == s;
      StartInEither(TOKEN, s[..q], insert + rest);
    }
  }

  /** With a safe insert, replacing makes no PLACEHOLDER at the start that was not there before. */
  lemma NoneAppears(s: string, token: string, insert: string)
    requires token != "" && IsSafe(insert) && !(token <= s)
    requires TOKEN <= Replace(s, token, insert)
    ensures TOKEN <= s
  {
    var q, rest := RunsIntoInsert(s, token, insert);
    if !(TOKEN <= s) {
      ThroughInsert(TOKEN, q, insert, rest);
    }
  }

  lemma OnePassStep(s: string, key: string, password: string)
    requires s != "" && !(WG_TOKEN <= s) && !(TOKEN <= s)
    ensures OnePass(s, key, password) == [s[0]] + OnePass(s[1..], key, password)
  {
  }

  /** Up to its first token of either kind, the single pass leaves a text alone too. */
  lemma {:induction false} OnePassSkips(s: string, key: string, password: string, k: nat, q: nat)
    requires k <= q <= |s|
    requires forall m :: k <= m < q ==> !(WG_TOKEN <= s[m..]) && !(TOKEN <= s[m..])
    ensures OnePass(s[k..], key, password) == s[k..q] + OnePass(s[q..], key, password)
    decreases q - k
  {
    if k == q {
    } else {
      OnePassSkips(s, key, password, k + 1, q);
      assert s[k..][1..] == s[k + 1..] && s[k..][0] == s[k];
      OnePassStep(s[k..], key, password);
      assert s[k..q] == [s[k]] + s[k + 1..q];
      Reassociate([s[k]], s[k + 1..q], OnePass(s[q..], key, password));
    }
  }

  lemma AtWgToken(s: string, after: string, key: string, password: string)
    requires s == WG_TOKEN + after
    ensures OnePass(s, key, password) == key + OnePass(after, key, password)
    ensures Replace(s, WG_TOKEN, key) == key + Replace(after, WG_TOKEN, key)
  {
    assert s[|WG_TOKEN|..] == after;
  }

  // --- Two passes are one ---

  lemma {:induction false} TwoPassesAreOne(s: string, key: string, password: string)
    requires IsSafe(key)
    ensures TwoPasses(s, key, password) == OnePass(s, key, password)
    decreases |s|
  {
    if s == "" {
    } else if WG_TOKEN <= s {
      var rest := s[|WG_TOKEN|..];
      TwoPassesAreOne(rest, key, password);
      ReplacePassesOver(key, Replace(rest, WG_TOKEN, key), password, 0);
      assert key[0..] == key;
    } else if TOKEN <= s {
      TwoPassesAreOne(s[|TOKEN|..], key, password);
      PlainTokenStays(s, key);
      var t := Replace(s, WG_TOKEN, key);
      assert t[|TOKEN|..] == Replace(s[|TOKEN|..], WG_TOKEN, key);
    } else {
      TwoPassesAreOne(s[1..], key, password);
      var t := Replace(s, WG_TOKEN, key);
      if TOKEN <= t {
        NoneAppears(s, WG_TOKEN, key);
      }
      assert t[1..] == Replace(s[1..], WG_TOKEN, key);
    }
  }

  /** The first pass leaves a plain PLACEHOLDER alone. */
  lemma PlainTokenStays(s: string, key: string)
    requires TOKEN <= s && !(WG_TOKEN <= s)
    ensures Replace(s, WG_TOKEN, key) == TOKEN + Replace(s[|TOKEN|..], WG_TOKEN, key)
  {
    TokenLetters();
    forall k | 0 <= k < |TOKEN| ensures !(WG_TOKEN <= s[k..]) {
      assert s[k..][0] == s[k] == TOKEN[k];
    }
    ReplaceSkips(s, WG_TOKEN, key, |TOKEN|);
    assert s[..|TOKEN|] == TOKEN;
  }

  // --- Only safe keys do ---

  /** PLACEHOLDER cut short before a WG token is not touched; neither is the start of the WG token. */
  lemma PartBeforeToken(i: nat, k: nat, rest: string)
    requires k < i < |TOKEN|
    ensures !(WG_TOKEN <= (TOKEN[..i] + WG_TOKEN + rest)[k..]) && !(TOKEN <= (TOKEN[..i] + WG_TOKEN + rest)[k..])
  {
    TokenLetters();
    var s := TOKEN[..i] + WG_TOKEN + rest;
    assert s[k..][0] == TOKEN[k];
    if k > 0 {
      assert TOKEN[k] != TOKEN[0];
    } else {
      assert s[k..][i] == s[i] == WG_TOKEN[0] != TOKEN[i];
    }
  }

  /** A WG token between texts that hold no token becomes the key, in one pass or in the first of two. */
  lemma OneWgToken(before: string, after: string, key: string, password: string)
    requires |after| < |TOKEN|
    requires forall k :: 0 <= k < |before| ==> !(WG_TOKEN <= (before + WG_TOKEN + after)[k..])
    requires forall k :: 0 <= k < |before| ==> !(TOKEN <= (before + WG_TOKEN + after)[k..])
    ensures OnePass(before + WG_TOKEN + after, key, password) == before + key + after
    ensures Replace(before + WG_TOKEN + after, WG_TOKEN, key) == before + key + after
  {
    var s := before + WG_TOKEN + after;
    assert s[|before|..] == WG_TOKEN + after && s[0..|before|] == s[..|before|] == before && s[0..] == s;
    OnePassSkips(s, key, password, 0, |before|);
    ReplaceSkips(s, WG_TOKEN, key, |before|);
    AtWgToken(s[|before|..], after, key, password);
    ShortTextStays(after, key, password);
    assert before + (key + after) == before + key + after;
  }

  lemma {:induction false} OnePassAround(i: nat, j: nat, key: string, password: string)
    requires i < |TOKEN| && 0 < j <= |TOKEN|
    ensures OnePass(TOKEN[..i] + WG_TOKEN + TOKEN[j..], key, password) == TOKEN[..i] + key + TOKEN[j..]
    ensures Replace(TOKEN[..i] + WG_TOKEN + TOKEN[j..], WG_TOKEN, key) == TOKEN[..i] + key + TOKEN[j..]
  {
    var before, after := TOKEN[..i], TOKEN[j..];
    forall k | 0 <= k < |before|
      ensures !(WG_TOKEN <= (before + WG_TOKEN + after)[k..]) && !(TOKEN <= (before + WG_TOKEN + after)[k..])
    {
      PartBeforeToken(i, k, after);
    }
    OneWgToken(before, after, key, password);
  }

  /** A text shorter than PLACEHOLDER holds neither token. */
  lemma {:induction false} ShortTextStays(s: string, key: string, password: string)
    requires |s| < |TOKEN|
    ensures OnePass(s, key, password) == s && Replace(s, WG_TOKEN, key) == s
  {
    TokenLetters();
    if s == "" {
    } else {
      ShortTextStays(s[1..], key, password);
    }
  }

  /** Replacing an occurrence by nothing makes the text shorter. */
  lemma {:induction false} DeletingShortens(s: string, token: string)
    requires token != ""
    ensures |Replace(s, token, "")| <= |s|
    ensures Contains(s, token) ==> |Replace(s, token, "")| < |s|
    decreases |s|
  {
    if s == "" {
    } else if token <= s {
      DeletingShortens(s[|token|..], token);
    } else {
      DeletingShortens(s[1..], token);
      if Contains(s, token) {
        var k :| 0 <= k <= |s| && token <= s[k..];
        assert s[0..] == s;
        assert s[1..][k - 1..] == s[k..];
        ContainsAt(s[1..], token, k - 1);
      }
    }
  }

  /** Replacing first the WG token and then PLACEHOLDER is the single pass, for every text and
      password, exactly for the safe keys. */
  lemma TwoPassesAreOneExactlyForSafeKeys(key: string)
    ensures IsSafe(key) <==> forall s, password :: TwoPasses(s, key, password) == OnePass(s, key, password)
  {
    if IsSafe(key) {
      forall s, password ensures TwoPasses(s, key, password) == OnePass(s, key, password) {
        TwoPassesAreOne(s, key, password);
      }
    } else {
      var i, j :| 0 <= i < |TOKEN| && 0 < j <= |TOKEN| && Contains(TOKEN[..i] + key + TOKEN[j..], TOKEN);
      var s := TOKEN[..i] + WG_TOKEN + TOKEN[j..];
      OnePassAround(i, j, key, "");
      DeletingShortens(TOKEN[..i] + key + TOKEN[j..], TOKEN);
      assert TwoPasses(s, key, "") != OnePass(s, key, "");
    }
  }

  // --- What is left ---

  lemma NoneStartsInSafe(insert: string, rest: string)
    requires IsSafe(insert) && !Contains(rest, TOKEN)
    ensures !Contains(insert + rest, TOKEN)
  {
    var t := insert + rest;
    forall k | 0 <= k <= |t| ensures !(TOKEN <= t[k..]) {
      if k >= |insert| {
        assert t[k..] == rest[k - |insert|..];
      } else if TOKEN <= t[k..] {
        StartsInside(insert, rest, k);
      }
    }
  }

  /** A safe password leaves no PLACEHOLDER behind, wherever it is inserted. */
  lemma {:induction false} NothingLeft(s: string, password: string)
    requires IsSafe(password)
    ensures !Contains(Replace(s, TOKEN, password), TOKEN)
    decreases |s|
  {
    if s == "" {
    } else if TOKEN <= s {
      NothingLeft(s[|TOKEN|..], password);
      NoneStartsInSafe(password, Replace(s[|TOKEN|..], TOKEN, password));
    } else {
      var rest := Replace(s[1..], TOKEN, password);
      NothingLeft(s[1..], password);
      var t := [s[0]] + rest;
      forall k | 0 <= k <= |t| ensures !(TOKEN <= t[k..]) {
        if k > 0 {
          assert t[k..] == rest[k - 1..];
        } else if TOKEN <= t {
          NoneAppears(s, TOKEN, password);
        }
      }
    }
  }

  lemma {:induction false} ShortStays(s: string, token: string, value: string)
    requires |s| < |token|
    ensures Replace(s, token, value) == s
  {
    if s == "" {
    } else {
      ShortStays(s[1..], token, value);
    }
  }

  /** One PLACEHOLDER, with none before it and too little behind it, is replaced. */
  lemma OneToken(before: string, after: string, value: string)
    requires |after| < |TOKEN|
    requires forall k :: 0 <= k < |before| ==> !(TOKEN <= (before + TOKEN + after)[k..])
    ensures Replace(before + TOKEN + after, TOKEN, value) == before + value + after
  {
    var s := before + TOKEN + after;
    ReplaceSkips(s, TOKEN, value, |before|);
    assert s[..|before|] == before && s[|before|..] == TOKEN + after;
    assert s[|before|..][|TOKEN|..] == after;
    ShortStays(after, TOKEN, value);
    assert before + (value + after) == before + value + after;
  }

  lemma PartBeforePlainToken(i: nat, k: nat, rest: string)
    requires k < i < |TOKEN|
    ensures !(TOKEN <= (TOKEN[..i] + TOKEN + rest)[k..])
  {
    TokenLetters();
    var s := TOKEN[..i] + TOKEN + rest;
    assert s[k..][0] == TOKEN[k];
    if k == 0 {
      assert s[k..][i] == s[i] == TOKEN[0];
    }
  }

  /** After the second replacement no PLACEHOLDER is left, whatever the text, exactly for the safe passwords. */
  lemma NothingLeftExactly(password: string)
    ensures IsSafe(password) <==> forall s :: !Contains(Replace(s, TOKEN, password), TOKEN)
  {
    if IsSafe(password) {
      forall s ensures !Contains(Replace(s, TOKEN, password), TOKEN) {
        NothingLeft(s, password);
      }
    } else {
      var i, j :| 0 <= i < |TOKEN| && 0 < j <= |TOKEN| && Contains(TOKEN[..i] + password + TOKEN[j..], TOKEN);
      var before, after := TOKEN[..i], TOKEN[j..];
      forall k | 0 <= k < |before| ensures !(TOKEN <= (before + TOKEN + after)[k..]) {
        PartBeforePlainToken(i, k, after);
      }
      OneToken(before, after, password);
    }
  }

  // --- The other order ---

  lemma MakesWgToken(i: nat, insert: string, j: nat)
    requires i < |WG_TOKEN| && |WG_TOKEN| - |TOKEN| < j <= |WG_TOKEN|
    requires Contains(WG_TOKEN[..i] + insert + WG_TOKEN[j..], WG_TOKEN)
    ensures !MakesNoWgToken(insert)
  {
  }

  /** A PLACEHOLDER is only ever made by an insert, so neither is the end of a WG token from its
      PLACEHOLDER or earlier on. */
  lemma {:induction false} EndNeedsInsert(s: string, password: string, m: nat)
    requires m <= |WG_TOKEN| - |TOKEN| && WG_TOKEN[m..] <= Replace(s, TOKEN, password)
    ensures !MakesNoWgToken(password)
    decreases |s|
  {
    if TOKEN <= s {
      var rest := Replace(s[|TOKEN|..], TOKEN, password);
      var end := m + |password|;
      if end > |WG_TOKEN| - |TOKEN| {
        ThroughInsert(WG_TOKEN, m, password, rest);
        MakesWgToken(m, password, AtMost(end, |WG_TOKEN|));
      } else {
        DropPrefix(WG_TOKEN[m..], password, rest);
        assert WG_TOKEN[m..][|password|..] == WG_TOKEN[end..];
        EndNeedsInsert(s[|TOKEN|..], password, end);
      }
    } else if s != "" {
      if m < |WG_TOKEN| - |TOKEN| {
        DropPrefix(WG_TOKEN[m..], [s[0]], Replace(s[1..], TOKEN, password));
        assert WG_TOKEN[m..][1..] == WG_TOKEN[m + 1..];
        EndNeedsInsert(s[1..], password, m + 1);
      } else {
        TokenLetters();
        var q, rest := RunsIntoInsert(s, TOKEN, password);
        assert TOKEN[q..] == WG_TOKEN[m + q..];
        ThroughInsert(WG_TOKEN, m + q, password, rest);
        MakesWgToken(m + q, password, AtMost(m + q + |password|, |WG_TOKEN|));
      }
    }
  }

  lemma {:induction false} NoWgTokenMade(s: string, password: string)
    requires MakesNoWgToken(password)
    ensures !Contains(Replace(s, TOKEN, password), WG_TOKEN)
    decreases |s|
  {
    var t := Replace(s, TOKEN, password);
    if s == "" {
    } else if TOKEN <= s {
      var rest := Replace(s[|TOKEN|..], TOKEN, password);
      NoWgTokenMade(s[|TOKEN|..], password);
      forall k | 0 <= k <= |t| ensures !(WG_TOKEN <= t[k..]) {
        if k >= |password| {
          assert t[k..] == rest[k - |password|..];
        } else if WG_TOKEN <= t[k..] {
          FromInsertOrBehind(s[|TOKEN|..], password, k);
        }
      }
    } else {
      var rest := Replace(s[1..], TOKEN, password);
      NoWgTokenMade(s[1..], password);
      forall k | 0 <= k <= |t| ensures !(WG_TOKEN <= t[k..]) {
        if k > 0 {
          assert t[k..] == rest[k - 1..];
        } else if WG_TOKEN <= t {
          assert WG_TOKEN[0..] == WG_TOKEN;
          EndNeedsInsert(s, password, 0);
        }
      }
    }
  }

  lemma FromInsertOrBehind(s: string, password: string, k: nat)
    requires k < |password| && WG_TOKEN <= (password + Replace(s, TOKEN, password))[k..]
    ensures !MakesNoWgToken(password)
  {
    var rest, m := Replace(s, TOKEN, password), |password| - k;
    assert (password + rest)[k..] == password[k..] + rest;
    if m > |WG_TOKEN| - |TOKEN| {
      FromInsert(WG_TOKEN, k, password, rest);
      MakesWgToken(0, password, AtMost(m, |WG_TOKEN|));
    } else {
      DropPrefix(WG_TOKEN, password[k..], rest);
      EndNeedsInsert(s, password, m);
    }
  }

  /** In the other order no WG token is left to match, so the key is never inserted. */
  lemma OtherOrderLosesKey(s: string, key: string, password: string)
    requires MakesNoWgToken(password)
    ensures Replace(Replace(s, TOKEN, password), WG_TOKEN, key) == Replace(s, TOKEN, password)
  {
    var t := Replace(s, TOKEN, password);
    NoWgTokenMade(s, password);
    ReplaceSkips(t, WG_TOKEN, key, |t|);
    assert t[..|t|] == t && Replace(t[|t|..], WG_TOKEN, key) == "";
    assert t + "" == t;
  }

  lemma WgTokenLetters()
    ensures forall k :: 0 <= k < |WG_TOKEN| && k != 3 && k != 15 ==> WG_TOKEN[k] != 'P'
    ensures WG_TOKEN[4] != TOKEN[1] && TOKEN[0] != TOKEN[1]
  {
  }

  lemma PartOfWgBeforeToken(i: nat, k: nat, rest: string)
    requires k < i < |WG_TOKEN|
    ensures !(TOKEN <= (WG_TOKEN[..i] + TOKEN + rest)[k..])
  {
    TokenLetters();
    WgTokenLetters();
    var s := WG_TOKEN[..i] + TOKEN + rest;
    assert s[k..][0] == WG_TOKEN[k];
    if k == 3 {
      assert s[k..][1] == s[4] == if i > 4 then WG_TOKEN[4] else TOKEN[0];
    } else if k == 15 {
      assert s[k..][i - 15] == s[i] == TOKEN[0];
    }
  }

  /** The other order never inserts the key, whatever the text, exactly for the passwords that make no WG token. */
  lemma OtherOrderLosesKeyExactly(password: string)
    ensures MakesNoWgToken(password) <==>
            forall s, key :: Replace(Replace(s, TOKEN, password), WG_TOKEN, key) == Replace(s, TOKEN, password)
  {
    if MakesNoWgToken(password) {
      forall s, key ensures Replace(Replace(s, TOKEN, password), WG_TOKEN, key) == Replace(s, TOKEN, password) {
        OtherOrderLosesKey(s, key, password);
      }
    } else {
      var i, j :| 0 <= i < |WG_TOKEN| && |WG_TOKEN| - |TOKEN| < j <= |WG_TOKEN|
                  && Contains(WG_TOKEN[..i] + password + WG_TOKEN[j..], WG_TOKEN);
      var s := WgTokenIsLost(i, j, password);
    }
  }

  lemma WgTokenIsLost(i: nat, j: nat, password: string) returns (s: string)
    requires i < |WG_TOKEN| && |WG_TOKEN| - |TOKEN| < j <= |WG_TOKEN|
    requires Contains(WG_TOKEN[..i] + password + WG_TOKEN[j..], WG_TOKEN)
    ensures Replace(Replace(s, TOKEN, password), WG_TOKEN, "") != Replace(s, TOKEN, password)
  {
    var before, after := WG_TOKEN[..i], WG_TOKEN[j..];
    forall k | 0 <= k < |before| ensures !(TOKEN <= (before + TOKEN + after)[k..]) {
      PartOfWgBeforeToken(i, k, after);
    }
    OneToken(before, after, password);
    s := before + TOKEN + after;
    DeletingShortens(before + password + after, WG_TOKEN);
  }

  // --- An unsafe key, and an unsafe password ---

  lemma ReplaceWhole(token: string, value: string)
    requires token != ""
    ensures Replace(token, token, value) == value
  {
    assert token[|token|..] == "";
    assert value + "" == value;
  }

  /** A key that is PLACEHOLDER itself is unsafe: the second replacement puts the password in its place. */
  lemma PlaceholderKeyIsReplaced(password: string)
    ensures !IsSafe(TOKEN)
    ensures TwoPasses(WG_TOKEN, TOKEN, password) == password && OnePass(WG_TOKEN, TOKEN, password) == TOKEN
  {
    assert TOKEN[..0] + TOKEN + TOKEN[|TOKEN|..] == TOKEN;
    ContainsAt(TOKEN, TOKEN, 0);
    ReplaceWhole(WG_TOKEN, TOKEN);
    ReplaceWhole(TOKEN, password);
    assert WG_TOKEN[|WG_TOKEN|..] == "";
    assert TOKEN + "" == TOKEN;
  }

  /** So is the empty one: it lets the two ends of a PLACEHOLDER around a WG token meet. */
  lemma EmptyKeyIsUnsafe()
    ensures !IsSafe("")
  {
    assert TOKEN[..1] + "" + TOKEN[1..] == TOKEN;
    ContainsAt(TOKEN, TOKEN, 0);
  }

  /** A password that is the WG token makes one: in the other order the key then takes its place. */
  lemma WgTokenPasswordIsReplaced(key: string)
    ensures !MakesNoWgToken(WG_TOKEN)
    ensures Replace(Replace(TOKEN, TOKEN, WG_TOKEN), WG_TOKEN, key) == key
  {
    assert WG_TOKEN[..0] + WG_TOKEN + WG_TOKEN[|WG_TOKEN|..] == WG_TOKEN;
    ContainsAt(WG_TOKEN, WG_TOKEN, 0);
    ReplaceWhole(TOKEN, WG_TOKEN);
    ReplaceWhole(WG_TOKEN, key);
  }

  // --- The program ---

  datatype Result = Content(text: string) | Refused

  predicate HasToken(s: string, token: string) {
    FindText(s, token).Some?
  }

  /** The part of main between reading the file and connecting. */
  method Prepare(file: string, key: Option<string>, password: string) returns (result: Result)
    ensures key.None? ==> (result.Refused? <==> Contains(file, WG_TOKEN))
    ensures key.Some? ==> result == Content(TwoPasses(file, key.value, password))
    ensures key.Some? && IsSafe(key.value) ==> result == Content(OnePass(file, key.value, password))
    ensures result.Content? && key.None? ==> forall other :: result.text == OnePass(file, other, password)
    ensures result.Content? && IsSafe(password) ==> !Contains(result.text, TOKEN)
  {
    var content := file;
    var hadWgPlaceholder := HasToken(content, WG_TOKEN);
    if key.Some? {
      content := Replace(content, WG_TOKEN, key.value);
    } else if hadWgPlaceholder {
      ContainsAt(file, WG_TOKEN, FindText(file, WG_TOKEN).value);
      return Refused;
    } else {
      forall other: string ensures OnePass(file, other, password) == Replace(file, TOKEN, password) {
        NoWgToken(file, other, password);
      }
    }
    ghost var filled := content;
    if HasToken(content, TOKEN) {
      content := Replace(content, TOKEN, password);
    } else {
      ReplaceSkips(content, TOKEN, password, |content|);
      assert content[..|content|] == content && content + "" == content;
    }
    if IsSafe(password) {
      NothingLeft(filled, password);
    }
    if key.Some? && IsSafe(key.value) {
      TwoPassesAreOne(file, key.value, password);
    }
    result := Content(content);
  }

  /** Without a WG token the single pass is the second replacement. */
  lemma {:induction false} NoWgToken(s: string, key: string, password: string)
    requires FindText(s, WG_TOKEN).None?
    ensures OnePass(s, key, password) == Replace(s, TOKEN, password)
    decreases |s|
  {
    if s == "" {
    } else {
      assert s[0..] == s;
      var n := if TOKEN <= s then |TOKEN| else 1;
      assert forall j :: 0 <= j <= |s| - n ==> s[n..][j..] == s[n + j..];
      NoWgToken(s[n..], key, password);
    }
  }
}

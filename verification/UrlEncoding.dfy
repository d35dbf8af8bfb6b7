/** The starter template's percent-encoder, and the login URL's query built with it. */
module UrlEncoding {
  import opened Text

  /** A C++ string: every character is one byte. */
  predicate IsBytes(s: string) {
    forall i :: 0 <= i < |s| ==> s[i] < '\U{0100}'
  }

  type ByteString = s: string | IsBytes(s)

  /** Section 2.3 of RFC 3986. */
  predicate IsUnreserved(c: char) {
    'A' <= c <= 'Z' || 'a' <= c <= 'z' || IsDigit(c) || c == '-' || c == '_' || c == '.' || c == '~'
  }

  function HexDigit(n: int): (c: char)
    requires 0 <= n < 16
  {
    if n < 10 then '0' + n as char else 'A' + (n - 10) as char
  }

  function HexValue(c: char): Option<int> {
    if IsDigit(c) then Some(c as int - '0' as int)
    else if 'A' <= c <= 'F' then Some(c as int - 'A' as int + 10)
    else if 'a' <= c <= 'f' then Some(c as int - 'a' as int + 10)
    else None
  }

  /** What one byte becomes. */
  function Encoded(c: char): string
    requires c < '\U{0100}'
  {
    if IsUnreserved(c) then [c] else ['%', HexDigit(c as int / 16), HexDigit(c as int % 16)]
  }

  function UrlEncode(s: string): string
    requires IsBytes(s)
  {
    if s == "" then "" else UrlEncode(s[..|s| - 1]) + Encoded(s[|s| - 1])
  }

  /** url_encode */
  method Encode(value: string) returns (out: string)
    requires IsBytes(value)
    ensures out == UrlEncode(value)
  {
    out := "";
    for i := 0 to |value|
      invariant out == UrlEncode(value[..i])
    {
      var c := value[i];
      assert value[..i + 1][..i] == value[..i];
      if IsUnreserved(c) {
        out := out + [c];
      } else {
        out := out + ['%'] + [HexDigit(c as int / 16)] + [HexDigit(c as int % 16)];
      }
    }
    assert value[..|value|] == value;
  }

  /** Section 2.1 of RFC 3986: %XX is the byte XX; None if a % is not followed by two hex digits. */
  function UrlDecode(t: string): Option<string>
    decreases |t|
  {
    if t == "" then Some("")
    else if t[0] != '%' then
      var rest := UrlDecode(t[1..]);
      if rest.None? then None else Some([t[0]] + rest.value)
    else if |t| < 3 || HexValue(t[1]).None? || HexValue(t[2]).None? then None
    else
      var rest := UrlDecode(t[3..]);
      if rest.None? then None
      else Some([(16 * HexValue(t[1]).value + HexValue(t[2]).value) as char] + rest.value)
  }

  lemma {:induction false} EncodeCons(c: char, s: string)
    requires c < '\U{0100}' && IsBytes(s)
    ensures UrlEncode([c] + s) == Encoded(c) + UrlEncode(s)
  {
    if s == "" {
      assert [c][..0] == "";
      assert [c] + s == [c];
    } else {
      var front := s[..|s| - 1];
      assert ([c] + s)[..|s|] == [c] + front && ([c] + s)[|s|] == s[|s| - 1];
      EncodeCons(c, front);
      Reassociate(Encoded(c), UrlEncode(front), Encoded(s[|s| - 1]));
    }
  }

  /** Decoding what the encoder writes gives back every byte string. */
  lemma {:induction false} EncodingRoundTrip(s: string)
    requires IsBytes(s)
    ensures UrlDecode(UrlEncode(s)) == Some(s)
  {
    if s == "" {
    } else {
      var c, rest := s[0], s[1..];
      assert s == [c] + rest;
      EncodeCons(c, rest);
      EncodingRoundTrip(rest);
      DecodeEncoded(c, UrlEncode(rest), rest);
    }
  }

  lemma DecodeEncoded(c: char, t: string, s: string)
    requires c < '\U{0100}' && UrlDecode(t) == Some(s)
    ensures UrlDecode(Encoded(c) + t) == Some([c] + s)
  {
    var u := Encoded(c) + t;
    if IsUnreserved(c) {
      assert u[1..] == t;
    } else {
      assert u[3..] == t;
      HexRoundTrip(c as int / 16);
      HexRoundTrip(c as int % 16);
    }
  }

  lemma HexRoundTrip(n: int)
    requires 0 <= n < 16
    ensures HexValue(HexDigit(n)) == Some(n)
  {
  }

  predicate IsQuerySafe(s: string) {
    forall i :: 0 <= i < |s| ==> IsUnreserved(s[i]) || s[i] == '%'
  }

  /** Only unreserved characters and % appear, so never a query's delimiters. */
  lemma {:induction false} EncodedIsSafe(s: string)
    requires IsBytes(s)
    ensures IsQuerySafe(UrlEncode(s))
  {
    if s == "" {
    } else {
      EncodedIsSafe(s[..|s| - 1]);
    }
  }

  /** Every other byte becomes a % sign and its two hexadecimal digits, in capitals. */
  lemma ByteComesOut(c: char)
    requires c < '\U{0100}'
    ensures UrlEncode([c]) == Encoded(c)
    ensures 'A' <= c <= 'Z' || 'a' <= c <= 'z' || '0' <= c <= '9' || c in "-_.~" ==> Encoded(c) == [c]
    ensures !('A' <= c <= 'Z' || 'a' <= c <= 'z' || '0' <= c <= '9' || c in "-_.~") ==>
              exists i, j :: 0 <= i < 16 && 0 <= j < 16 && c as int == 16 * i + j
                             && Encoded(c) == ['%', "0123456789ABCDEF"[i], "0123456789ABCDEF"[j]]
  {
    assert [c][..0] == "";
    assert UrlEncode("") == "" && "" + Encoded(c) == Encoded(c);
    if !IsUnreserved(c) {
      var i, j := c as int / 16, c as int % 16;
      HexDigitIs(i);
      HexDigitIs(j);
    }
  }

  lemma HexDigitIs(n: int)
    requires 0 <= n < 16
    ensures HexDigit(n) == "0123456789ABCDEF"[n]
  {
  }

  // --- The query of the authorization URL ---

  /** The values the query carries; the last two are hexadecimal tokens. */
  datatype LoginQuery = LoginQuery(clientId: string, redirectUri: string, state: string, nonce: string)

  predicate IsHexToken(s: string) {
    forall i :: 0 <= i < |s| ==> IsDigit(s[i]) || 'a' <= s[i] <= 'f'
  }

  const SCOPE := "openid profile email"

  function BuildQuery(q: LoginQuery): string
    requires IsBytes(q.clientId) && IsBytes(q.redirectUri)
  {
    "response_type=code" +
    "&client_id=" + UrlEncode(q.clientId) +
    "&redirect_uri=" + UrlEncode(q.redirectUri) +
    "&scope=" + UrlEncode(SCOPE) +
    "&state=" + q.state +
    "&nonce=" + q.nonce
  }

  /** One key=value part of a query, both sides decoded. */
  function ParsePart(part: string): (Option<string>, Option<string>) {
    var k := Find(part, '=');
    (UrlDecode(part[..k]), if k == |part| then Some("") else UrlDecode(part[k + 1..]))
  }

  function ParseQuery(query: string): seq<(Option<string>, Option<string>)> {
    var parts := Split(query, '&');
    seq(|parts|, i requires 0 <= i < |parts| => ParsePart(parts[i]))
  }

  predicate IsPlain(s: string) {
    forall i :: 0 <= i < |s| ==> IsUnreserved(s[i])
  }

  lemma {:induction false} PlainDecodesToItself(s: string)
    requires IsPlain(s)
    ensures UrlDecode(s) == Some(s)
  {
    if s == "" {
    } else {
      PlainDecodesToItself(s[1..]);
      assert s == [s[0]] + s[1..];
    }
  }

  lemma PartParses(key: string, text: string, value: string)
    requires IsPlain(key) && Carries(text, value)
    ensures ParsePart(key + "=" + text) == (Some(key), Some(value))
    ensures '&' !in key + "=" + text
  {
    var part := key + ['='] + text;
    FindAfter(key, '=', text);
    assert part[..|key|] == key && part[|key| + 1..] == text;
    PlainDecodesToItself(key);
  }

  lemma {:induction false} JoinSnoc(parts: seq<string>, part: string)
    requires parts != []
    ensures Join(parts + [part], '&') == Join(parts, '&') + ['&'] + part
  {
    if |parts| == 1 {
      assert (parts + [part])[1..] == [part];
    } else {
      JoinSnoc(parts[1..], part);
      assert (parts + [part])[1..] == parts[1..] + [part];
    }
  }

  /** One more parameter, as the source appends it: "&key=" and then the value. */
  lemma AppendParameter(parts: seq<string>, key: string, text: string)
    requires parts != []
    ensures Join(parts + [key + "=" + text], '&') == Join(parts, '&') + ("&" + key + "=") + text
  {
    JoinSnoc(parts, key + "=" + text);
  }

  ghost function Pairs(keys: seq<string>, texts: seq<string>): seq<string>
    requires |keys| == |texts|
  {
    seq(|keys|, i requires 0 <= i < |keys| => keys[i] + "=" + texts[i])
  }

  lemma PairsSnoc(keys: seq<string>, texts: seq<string>, key: string, text: string)
    requires |keys| == |texts| > 0
    ensures Join(Pairs(keys + [key], texts + [text]), '&') == Join(Pairs(keys, texts), '&') + ("&" + key + "=") + text
  {
    assert Pairs(keys + [key], texts + [text]) == Pairs(keys, texts) + [key + "=" + text];
    AppendParameter(Pairs(keys, texts), key, text);
  }

  const KEYS: seq<string> := ["response_type", "client_id", "redirect_uri", "scope", "state", "nonce"]

  ghost function Texts(q: LoginQuery): seq<string>
    requires IsBytes(q.clientId) && IsBytes(q.redirectUri)
  {
    ["code", UrlEncode(q.clientId), UrlEncode(q.redirectUri), UrlEncode(SCOPE), q.state, q.nonce]
  }

  ghost function Values(q: LoginQuery): seq<string> {
    ["code", q.clientId, q.redirectUri, SCOPE, q.state, q.nonce]
  }

  lemma QueryIsJoined(q: LoginQuery)
    requires IsBytes(q.clientId) && IsBytes(q.redirectUri)
    ensures BuildQuery(q) == Join(Pairs(KEYS, Texts(q)), '&')
  {
    var k, t := KEYS, Texts(q);
    assert k[0] + "=" + t[0] == "response_type=code";
    assert Pairs(k[..1], t[..1]) == ["response_type=code"];
    forall n: nat | 1 <= n < 6 ensures k[..n + 1] == k[..n] + [k[n]] && t[..n + 1] == t[..n] + [t[n]] {}
    PairsSnoc(k[..1], t[..1], k[1], t[1]);
    PairsSnoc(k[..2], t[..2], k[2], t[2]);
    PairsSnoc(k[..3], t[..3], k[3], t[3]);
    PairsSnoc(k[..4], t[..4], k[4], t[4]);
    PairsSnoc(k[..5], t[..5], k[5], t[5]);
    assert k[..6] == k && t[..6] == t;
    SpellKeys();
  }

  lemma SpellKeys()
    ensures "&" + KEYS[1] + "=" == "&client_id=" && "&" + KEYS[2] + "=" == "&redirect_uri="
    ensures "&" + KEYS[3] + "=" == "&scope=" && "&" + KEYS[4] + "=" == "&state=" && "&" + KEYS[5] + "=" == "&nonce="
  {
  }

  lemma KeysArePlain()
    ensures forall i :: 0 <= i < |KEYS| ==> IsPlain(KEYS[i])
  {
  }

  /** A text that can stand as a value and is read as `value`. */
  ghost predicate Carries(text: string, value: string) {
    IsQuerySafe(text) && UrlDecode(text) == Some(value)
  }

  lemma EncodedCarries(s: string)
    requires IsBytes(s)
    ensures Carries(UrlEncode(s), s)
  {
    EncodedIsSafe(s);
    EncodingRoundTrip(s);
  }

  lemma PlainCarries(s: string)
    requires IsPlain(s)
    ensures Carries(s, s)
  {
    PlainDecodesToItself(s);
  }

  lemma TextsCarryValues(q: LoginQuery)
    requires IsBytes(q.clientId) && IsBytes(q.redirectUri) && IsHexToken(q.state) && IsHexToken(q.nonce)
    ensures forall i :: 0 <= i < 6 ==> Carries(Texts(q)[i], Values(q)[i])
  {
    EncodedCarries(q.clientId);
    EncodedCarries(q.redirectUri);
    EncodedCarries(SCOPE);
    PlainCarries("code");
    PlainCarries(q.state);
    PlainCarries(q.nonce);
  }

  /** The parameters a server reads out of the query are the ones put into it, for every client id and address. */
  lemma QueryRoundTrip(q: LoginQuery)
    requires IsBytes(q.clientId) && IsBytes(q.redirectUri) && IsHexToken(q.state) && IsHexToken(q.nonce)
    ensures ParseQuery(BuildQuery(q)) ==
            seq(6, i requires 0 <= i < 6 => (Some(KEYS[i]), Some(Values(q)[i])))
  {
    QueryIsJoined(q);
    KeysArePlain();
    TextsCarryValues(q);
    var parts := Pairs(KEYS, Texts(q));
    forall i | 0 <= i < 6 ensures '&' !in parts[i] && ParsePart(parts[i]) == (Some(KEYS[i]), Some(Values(q)[i])) {
      PartParses(KEYS[i], Texts(q)[i], Values(q)[i]);
    }
    SplitJoin(parts, '&');
  }

  /** The six parameters by name: the state is the session's id, and the address is the app's callback. */
  lemma QuerySays(q: LoginQuery)
    requires IsBytes(q.clientId) && IsBytes(q.redirectUri) && IsHexToken(q.state) && IsHexToken(q.nonce)
    ensures ParseQuery(BuildQuery(q)) == [
              (Some("response_type"), Some("code")), (Some("client_id"), Some(q.clientId)),
              (Some("redirect_uri"), Some(q.redirectUri)), (Some("scope"), Some("openid profile email")),
              (Some("state"), Some(q.state)), (Some("nonce"), Some(q.nonce))]
  {
    QueryRoundTrip(q);
    SixPairs(q, ParseQuery(BuildQuery(q)));
  }

  lemma SixPairs(q: LoginQuery, pairs: seq<(Option<string>, Option<string>)>)
    requires pairs == seq(6, i requires 0 <= i < 6 => (Some(KEYS[i]), Some(Values(q)[i])))
    ensures pairs == [
              (Some("response_type"), Some("code")), (Some("client_id"), Some(q.clientId)),
              (Some("redirect_uri"), Some(q.redirectUri)), (Some("scope"), Some("openid profile email")),
              (Some("state"), Some(q.state)), (Some("nonce"), Some(q.nonce))]
  {
    var v := Values(q);
    assert KEYS[1] == "client_id" && KEYS[2] == "redirect_uri" && KEYS[3] == "scope" && KEYS[4] == "state" && KEYS[5] == "nonce";
    assert v[1] == q.clientId && v[2] == q.redirectUri && v[3] == SCOPE && v[4] == q.state && v[5] == q.nonce;
    assert pairs[0] == (Some("response_type"), Some("code")) && pairs[1] == (Some("client_id"), Some(q.clientId));
    assert pairs[2] == (Some("redirect_uri"), Some(q.redirectUri)) && pairs[3] == (Some("scope"), Some(SCOPE));
    assert pairs[4] == (Some("state"), Some(q.state)) && pairs[5] == (Some("nonce"), Some(q.nonce));
  }
}

/** How the starter template reads a cookie out of the Cookie header, and when it reads the right one. */
module Cookies {
  import opened Text

  /** The text after `name=` up to the next semicolon; empty if there is none. */
  function GetCookie(header: Option<string>, name: string): string {
    if header.None? then ""
    else
      match FindText(header.value, name + "=")
      case None => ""
      case Some(k) => CookieValue(header.value[k + |name| + 1..])
  }

  function CookieValue(rest: string): string {
    rest[..Find(rest, ';')]
  }

  /** A Cookie header with the cookie among others. */
  function CookieHeader(before: string, name: string, id: string, after: string): string {
    before + (name + "=") + (id + after)
  }

  lemma FirstIsRead(before: string, name: string, id: string, after: string)
    requires FindText(CookieHeader(before, name, id, after), name + "=") == Some(|before|)
    requires ';' !in id && (after == "" || after[0] == ';')
    ensures GetCookie(Some(CookieHeader(before, name, id, after)), name) == id
  {
    var header, needle := CookieHeader(before, name, id, after), name + "=";
    assert header[|before| + |needle|..] == id + after;
    UpToSemicolon(id, after);
  }

  lemma UpToSemicolon(id: string, after: string)
    requires ';' !in id && (after == "" || after[0] == ';')
    ensures (id + after)[..Find(id + after, ';')] == id
  {
    if after != "" {
      assert id + after == id + [';'] + after[1..];
      FindAfter(id, ';', after[1..]);
    } else {
      assert id + after == id;
    }
  }

  lemma MissingCookieIsEmpty(header: Option<string>, name: string)
    requires header.Some? ==> !Contains(header.value, name + "=")
    ensures GetCookie(header, name) == ""
  {
  }

  /** The name's = is its only one, so no occurrence straddles the end of the text before. */
  lemma FoundBehind(before: string, name: string, id: string, after: string)
    requires '=' !in name && !Contains(before, name + "=")
    ensures FindText(CookieHeader(before, name, id, after), name + "=") == Some(|before|)
  {
    var header, needle := CookieHeader(before, name, id, after), name + "=";
    assert header == before + (needle + (id + after));
    assert header[|before|..] == needle + (id + after);
    forall k | 0 <= k < |before| ensures !(needle <= header[k..]) {
      assert header[k..] == before[k..] + (needle + (id + after));
      if k + |needle| <= |before| {
        StartsWithin(before[k..], needle + (id + after), needle);
      } else {
        var i := k + |name| - |before|;
        assert header[k..][|name|] == needle[i] == name[i] && name[i] in name;
        assert needle[|name|] == '=';
      }
    }
    FoundFirst(header, needle, |before|);
  }

  /** What is read then is not the id: it ends before it, or goes on through it. */
  lemma OtherIsRead(before: string, name: string, after: string) returns (id: string)
    requires ';' !in name && Contains(before, name + "=")
    ensures ';' !in id && GetCookie(Some(CookieHeader(before, name, id, after)), name) != id
  {
    var needle := name + "=";
    var q := FindText(before, needle).value;
    var tail := before[q + |name| + 1..];
    var n := Find(tail, ';');
    id := if n < |tail| then tail[..n] + "." else "";
    var more := needle + (id + after);
    Reassociate(before, needle, id + after);
    ReadBehind(before, more, name, q);
    if n < |tail| {
      FindIn(tail, more);
      assert |CookieValue(tail + more)| == n;
    } else {
      FindNotIn(tail + needle, id + after);
      Reassociate(tail, needle, id + after);
      assert |CookieValue(tail + more)| >= 1;
    }
  }

  lemma {:induction false} ReadAt(header: string, name: string, q: nat, rest: string)
    requires FindText(header, name + "=") == Some(q) && rest == header[q + |name| + 1..]
    ensures GetCookie(Some(header), name) == CookieValue(rest)
  {
  }

  lemma ReadBehind(before: string, more: string, name: string, q: nat)
    requires FindText(before, name + "=") == Some(q)
    ensures GetCookie(Some(before + more), name) == CookieValue(before[q + |name| + 1..] + more)
  {
    FoundInPrefix(before, more, name + "=");
    DropWithin(before, more, q + |name| + 1);
    ReadAt(before + more, name, q, before[q + |name| + 1..] + more);
  }

  lemma DropWithin(a: string, b: string, n: nat)
    requires n <= |a|
    ensures (a + b)[n..] == a[n..] + b
  {
  }

  lemma {:induction false} FindIn(a: string, b: string)
    requires ';' in a
    ensures Find(a + b, ';') == Find(a, ';')
  {
    var k := Find(a, ';');
    assert a == a[..k] + [';'] + a[k + 1..];
    assert a + b == a[..k] + [';'] + (a[k + 1..] + b);
    FindAfter(a[..k], ';', a[k + 1..] + b);
  }

  lemma FindNotIn(a: string, b: string)
    requires ';' !in a
    ensures Find(a + b, ';') >= |a|
  {
    assert forall i :: 0 <= i < |a| ==> (a + b)[i] == a[i] && a[i] in a;
  }

  /** The cookie /login sets is read back, whatever its id, exactly if its name and = do not occur in the
      part of the header before it. */
  lemma CookieComesBackExactly(before: string, name: string, after: string)
    requires '=' !in name && ';' !in name && (after == "" || after[0] == ';')
    ensures !Contains(before, name + "=") <==>
            forall id :: ';' !in id ==> GetCookie(Some(CookieHeader(before, name, id, after)), name) == id
  {
    if Contains(before, name + "=") {
      var id := OtherIsRead(before, name, after);
    } else {
      forall id | ';' !in id ensures GetCookie(Some(CookieHeader(before, name, id, after)), name) == id {
        FoundBehind(before, name, id, after);
        FirstIsRead(before, name, id, after);
      }
    }
  }

  /** In "xsession_id=one; session_id=two" it is the first, a cookie of a longer name, that is read. */
  lemma LongerNameIsRead()
    ensures GetCookie(Some(CookieHeader("x", "session_id", "one", "; session_id=two")), "session_id") == "one"
  {
    var needle := "session_id" + "=";
    assert !Contains("x", needle) by {
      assert forall k :: 0 <= k <= 1 ==> |"x"[k..]| < |needle|;
    }
    FoundBehind("x", "session_id", "one", "; session_id=two");
    FirstIsRead("x", "session_id", "one", "; session_id=two");
  }
}

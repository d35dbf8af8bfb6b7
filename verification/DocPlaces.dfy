/** Where a chunk's text and heading come from, in terms of the document's lines. */
module DocPlaces {
  import opened Text
  import opened DocChunks

  // --- Texts, in order, with white space between them ---

  /** `s` is the parts in their order, with nothing but white space before, between and behind them. */
  ghost predicate Spaced(s: string, parts: seq<string>)
    decreases |parts|
  {
    if parts == [] then IsBlank(s)
    else exists gap, rest :: IsBlank(gap) && s == gap + parts[0] + rest && Spaced(rest, parts[1..])
  }

  lemma SpacedFirst(gap: string, first: string, rest: string, parts: seq<string>)
    requires IsBlank(gap) && Spaced(rest, parts)
    ensures Spaced(gap + first + rest, [first] + parts)
  {
    assert ([first] + parts)[1..] == parts;
  }

  lemma BlankInFront(gap: string, s: string, parts: seq<string>)
    requires IsBlank(gap) && Spaced(s, parts)
    ensures Spaced(gap + s, parts)
  {
    if parts == [] {
    } else {
      var inner, rest :| IsBlank(inner) && s == inner + parts[0] + rest && Spaced(rest, parts[1..]);
      assert gap + s == (gap + inner) + parts[0] + rest;
      SpacedFirst(gap + inner, parts[0], rest, parts[1..]);
      assert parts == [parts[0]] + parts[1..];
    }
  }

  lemma {:induction false} SpacedTogether(s: string, parts: seq<string>, t: string, more: seq<string>)
    requires Spaced(s, parts) && Spaced(t, more)
    ensures Spaced(s + t, parts + more)
    decreases |parts|
  {
    if parts == [] {
      BlankInFront(s, t, more);
      assert parts + more == more;
    } else {
      var gap, rest :| IsBlank(gap) && s == gap + parts[0] + rest && Spaced(rest, parts[1..]);
      SpacedTogether(rest, parts[1..], t, more);
      SpacedFirst(gap, parts[0], rest + t, parts[1..] + more);
      Reassociate(gap + parts[0], rest, t);
      assert parts == [parts[0]] + parts[1..];
      Reassociate([parts[0]], parts[1..], more);
    }
  }

  lemma StripIsSpaced(s: string)
    ensures Spaced(s, if Strip(s) == "" then [] else [Strip(s)])
  {
    var a, b := StripCuts(s);
    if Strip(s) == "" {
      assert s == a + b;
    } else {
      SpacedFirst(a, Strip(s), b, []);
      assert [Strip(s)] + [] == [Strip(s)];
    }
  }

  lemma {:induction false} StripAllIsSpaced(pieces: seq<string>)
    ensures Spaced(Concat(pieces), StripAll(pieces))
  {
    if pieces == [] {
    } else {
      var before, last := pieces[..|pieces| - 1], pieces[|pieces| - 1];
      StripAllIsSpaced(before);
      StripIsSpaced(last);
      SpacedTogether(Concat(before), StripAll(before), last, if Strip(last) == "" then [] else [Strip(last)]);
      assert StripAll(before) + [] == StripAll(before);
    }
  }

  lemma TextsAreSpaced(body: string)
    ensures Spaced(body, Texts(body))
  {
    if |body| > MAX_CHUNK {
      PiecesAreWhole(body);
      StripAllIsSpaced(Pieces(body));
      if IsBullet(body, 0) {
        ConcatCons("", AfterStart(body));
        assert "" + body == body;
      }
    } else {
      SpacedFirst("", body, "", []);
      assert "" + body + "" == body && [body] + [] == [body];
    }
  }

  function TextsOf(chunks: seq<Chunk>): seq<string> {
    seq(|chunks|, i requires 0 <= i < |chunks| => chunks[i].text)
  }

  /** The lines of a section, joined, are the texts of its chunks with white space around them. */
  lemma SectionIsSpaced(path: string, trail: seq<Heading>, lines: seq<string>, tokenize: Tokenizer)
    ensures Spaced(Join(lines, '\n'), TextsOf(SectionChunks(path, trail, lines, tokenize)))
  {
    var s := Join(lines, '\n');
    var body := Strip(s);
    var a, b := StripCuts(s);
    if body == "" {
      assert s == a + b;
    } else {
      TextsAreSpaced(body);
      BlankInFront(a, body, Texts(body));
      SpacedTogether(a + body, Texts(body), b, []);
      assert Texts(body) + [] == Texts(body);
      assert TextsOf(SectionChunks(path, trail, lines, tokenize)) == Texts(body);
    }
  }

  lemma {:induction false} SpacedHolds(s: string, parts: seq<string>, i: nat) returns (a: string, b: string)
    requires Spaced(s, parts) && i < |parts|
    ensures s == a + parts[i] + b
    decreases i
  {
    var gap, rest :| IsBlank(gap) && s == gap + parts[0] + rest && Spaced(rest, parts[1..]);
    if i == 0 {
      a, b := gap, rest;
    } else {
      a, b := SpacedHolds(rest, parts[1..], i - 1);
      Reassociate(gap + parts[0], a + parts[i], b);
      Reassociate(gap + parts[0], a, parts[i]);
      a := gap + parts[0] + a;
    }
  }

  /** A section of at most 2500 characters is one chunk. */
  lemma ShortSectionIsWhole(path: string, trail: seq<Heading>, lines: seq<string>, tokenize: Tokenizer)
    requires 1 <= |Strip(Join(lines, '\n'))| <= 2500
    ensures TextsOf(SectionChunks(path, trail, lines, tokenize)) == [Strip(Join(lines, '\n'))]
  {
  }

  /** A longer one is cut only where a line starts a bullet. */
  lemma {:induction false} OnlyCutAtBullets(s: string)
    ensures forall k :: 1 <= k < |AfterStart(s)| ==> "- " <= AfterStart(s)[k]
    ensures IsBullet(s, 0) ==> "- " <= AfterStart(s)[0]
    decreases |s|
  {
    if s == "" {
    } else {
      var k := NextBullet(s, 1);
      if IsBullet(s, 0) {
        assert s[0..] == s && s[1] == ' ' && !IsBullet(s, 1);
        assert s[..k][0] == s[0] && s[..k][1] == s[1];
      }
      if k < |s| {
        assert IsBullet(s[k..], 0) by {
          assert s[k..][0..] == s[k..];
        }
        OnlyCutAtBullets(s[k..]);
      }
    }
  }

  /** The pieces of a text that is cut: each but the first starts with a bullet, and none can be cut again. */
  ghost predicate IsCut(body: string, pieces: seq<string>) {
    && Concat(pieces) == body
    && (forall k :: 1 <= k < |pieces| ==> "- " <= pieces[k])
    && (forall p :: p in pieces ==> IsOnePiece(p))
  }

  lemma AfterStartIsCut(body: string)
    ensures IsCut(body, AfterStart(body)) && StripAll(Pieces(body)) == StripAll(AfterStart(body))
  {
    PiecesAreWhole(body);
    PiecesCannotBeCut(body);
    OnlyCutAtBullets(body);
    if IsBullet(body, 0) {
      StripAllOfEmpty(AfterStart(body));
    }
  }

  lemma LongSectionIsCutAtBullets(path: string, trail: seq<Heading>, lines: seq<string>, tokenize: Tokenizer)
    requires |Strip(Join(lines, '\n'))| > 2500
    ensures exists pieces ::
              IsCut(Strip(Join(lines, '\n')), pieces)
              && TextsOf(SectionChunks(path, trail, lines, tokenize)) == StripAll(pieces)
  {
    var body := Strip(Join(lines, '\n'));
    AfterStartIsCut(body);
    assert TextsOf(SectionChunks(path, trail, lines, tokenize)) == Texts(body);
  }

  /** An empty piece in front makes no difference. */
  lemma {:induction false} StripAllOfEmpty(pieces: seq<string>)
    ensures StripAll([""] + pieces) == StripAll(pieces)
  {
    var all := [""] + pieces;
    if pieces == [] {
      assert all[..0] == [];
    } else {
      assert all[..|all| - 1] == [""] + pieces[..|pieces| - 1];
      StripAllOfEmpty(pieces[..|pieces| - 1]);
    }
  }

  // --- The breadcrumb ---

  lemma CrumbsOfOne(name: string)
    ensures Crumbs([name]) == name
  {
  }

  /** The names stand in their order, with " > " between any two neighbours. */
  lemma {:induction false} CrumbsTogether(a: seq<string>, b: seq<string>)
    requires a != [] && b != []
    ensures Crumbs(a + b) == Crumbs(a) + " > " + Crumbs(b)
  {
    assert (a + b)[0] == a[0] && (a + b)[1..] == a[1..] + b;
    if |a| == 1 {
      assert a[1..] + b == b;
    } else {
      CrumbsTogether(a[1..], b);
      Reassociate(a[0] + " > ", Crumbs(a[1..]) + " > ", Crumbs(b));
      Reassociate(a[0] + " > ", Crumbs(a[1..]), " > ");
    }
  }

  function TitlesOf(trail: seq<Heading>): seq<string> {
    seq(|trail|, i requires 0 <= i < |trail| => trail[i].title)
  }

  lemma {:induction false} AllTitles(trail: seq<Heading>)
    requires forall h :: h in trail ==> h.level >= 1
    ensures Titles(trail, 0) == TitlesOf(trail)
  {
    if trail == [] {
    } else {
      AllTitles(trail[..|trail| - 1]);
      assert trail[|trail| - 1] in trail;
    }
  }

  /** The headings a chunk shows: those it stands under, without the document's own title if there is more. */
  function Shown(trail: seq<Heading>): seq<Heading> {
    if |trail| > 1 && trail[0].level == 1 then trail[1..] else trail
  }

  lemma BreadcrumbShows(path: string, trail: seq<Heading>)
    requires IsRising(trail) && forall h :: h in trail ==> h.level >= 1
    ensures var line := Crumbs(TitlesOf(Shown(trail)));
            Breadcrumb(path, trail) == if line == "" then path else line
  {
    AllTitles(trail);
    if trail != [] {
      var rest := if trail[0].level == 1 then trail[1..] else trail;
      OnlyTitleIsDropped(trail);
      AllTitles(rest);
      assert |rest| == |TitlesOf(rest)|;
    }
  }

  lemma {:induction false} HeadingsHaveLevels(lines: seq<string>)
    ensures forall h :: h in Headings(lines) ==> h.level >= 1
  {
    if lines == [] {
    } else {
      HeadingsHaveLevels(lines[..|lines| - 1]);
    }
  }

  // --- A chunk's place ---

  /** The open lines are those from the line after the last heading on. */
  lemma {:induction false} OpenLinesAreLast(lines: seq<string>) returns (m: nat)
    ensures m <= |lines| && OpenLines(lines) == lines[m..]
    ensures forall i :: m <= i < |lines| ==> HeadingOf(lines[i]).None?
    ensures m > 0 ==> HeadingOf(lines[m - 1]).Some?
  {
    var n := |lines|;
    if n == 0 || HeadingOf(lines[n - 1]).Some? {
      m := n;
    } else {
      m := OpenLinesAreLast(lines[..n - 1]);
      assert lines[..n - 1][m..] + [lines[n - 1]] == lines[m..];
    }
  }

  /** Lines m to n, between two headings or an end of the document. */
  ghost predicate IsSection(lines: seq<string>, m: nat, n: nat) {
    && m <= n <= |lines|
    && (forall i :: m <= i < n ==> HeadingOf(lines[i]).None?)
    && (m > 0 ==> HeadingOf(lines[m - 1]).Some?) && (n < |lines| ==> HeadingOf(lines[n]).Some?)
  }

  lemma TextIsInLines(path: string, lines: seq<string>, tokenize: Tokenizer, c: Chunk) returns (a: string, b: string)
    requires c in OpenChunks(path, lines, tokenize)
    ensures Join(OpenLines(lines), '\n') == a + c.text + b
  {
    var trail := Survivors(Headings(lines));
    var chunks := SectionChunks(path, trail, OpenLines(lines), tokenize);
    var i :| 0 <= i < |chunks| && chunks[i] == c;
    SectionIsSpaced(path, trail, OpenLines(lines), tokenize);
    a, b := SpacedHolds(Join(OpenLines(lines), '\n'), TextsOf(chunks), i);
  }

  /** The titles of the headings no later one equals or outranks, in document order and without the
      document's own title if there are others; or the path, if that comes to nothing. */
  ghost predicate IsHeadingFor(heading: string, path: string, lines: seq<string>) {
    var line := Crumbs(TitlesOf(Shown(Survivors(Headings(lines)))));
    heading == if line == "" then path else line
  }

  lemma BreadcrumbIsHeading(path: string, lines: seq<string>)
    ensures IsHeadingFor(Breadcrumb(path, Survivors(Headings(lines))), path, lines)
  {
    SurvivorsRise(Headings(lines));
    SurvivorsAreHeadings(Headings(lines));
    HeadingsHaveLevels(lines);
    BreadcrumbShows(path, Survivors(Headings(lines)));
  }

  lemma SectionBefore(lines: seq<string>, n: nat) returns (m: nat)
    requires n <= |lines| && (n == |lines| || HeadingOf(lines[n]).Some?)
    ensures IsSection(lines, m, n) && OpenLines(lines[..n]) == lines[m..n]
  {
    m := OpenLinesAreLast(lines[..n]);
    assert lines[..n][m..] == lines[m..n];
  }

  lemma PlacedParts(path: string, lines: seq<string>, tokenize: Tokenizer, c: Chunk, n: nat)
    requires IsPlaced(path, lines, tokenize, c, n)
    ensures n <= |lines| && (n == |lines| || HeadingOf(lines[n]).Some?)
    ensures c in OpenChunks(path, lines[..n], tokenize)
    ensures c.heading == Breadcrumb(path, Survivors(Headings(lines[..n])))
  {
  }

  /** Every chunk is a contiguous part of one section's lines, under the headings it stands under there. */
  lemma {:induction false} ChunkIsInSection(path: string, text: string, tokenize: Tokenizer, c: Chunk)
    returns (m: nat, n: nat, a: string, b: string)
    requires c in DocumentChunks(path, text, tokenize)
    ensures var lines := Split(text, '\n');
            && IsSection(lines, m, n) && Join(lines[m..n], '\n') == a + c.text + b
            && IsHeadingFor(c.heading, path, lines[..n])
  {
    var lines := Split(text, '\n');
    n := ChunkIsPlaced(path, text, tokenize, c);
    PlacedParts(path, lines, tokenize, c, n);
    m := SectionBefore(lines, n);
    BreadcrumbIsHeading(path, lines[..n]);
    a, b := TextIsInLines(path, lines[..n], tokenize, c);
  }

  lemma BreadcrumbExample(tokenize: Tokenizer)
    ensures Crumbs(TitlesOf(Shown([Heading(1, "T"), Heading(2, "A"), Heading(3, "B")]))) == "A > B"
  {
    var trail := [Heading(1, "T"), Heading(2, "A"), Heading(3, "B")];
    assert TitlesOf(Shown(trail)) == ["A"] + ["B"];
    CrumbsTogether(["A"], ["B"]);
  }
}

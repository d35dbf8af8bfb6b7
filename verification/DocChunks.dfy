/**
 context.py's chunker: documents are cut at headings, and long sections again at bullets. Each
 chunk carries the headings it stands under. How a text becomes search tokens is a parameter.
 */
module DocChunks {
  import opened Text

  datatype Heading = Heading(level: nat, title: string)

  datatype Chunk = Chunk(path: string, heading: string, text: string, tokens: seq<string>)

  type Tokenizer = string -> seq<string>

  const MAX_CHUNK := 2500
  const MAX_LEVEL := 4

  // --- Text without its white space ---

  function NonSpace(s: string): string {
    if s == "" then "" else (if IsSpace(s[0]) then "" else [s[0]]) + NonSpace(s[1..])
  }

  function Concat(parts: seq<string>): string {
    if parts == [] then "" else Concat(parts[..|parts| - 1]) + parts[|parts| - 1]
  }

  lemma {:induction false} NonSpaceConcat(a: string, b: string)
    ensures NonSpace(a + b) == NonSpace(a) + NonSpace(b)
  {
    if a == "" {
      assert a + b == b;
    } else {
      assert (a + b)[1..] == a[1..] + b;
      NonSpaceConcat(a[1..], b);
    }
  }

  lemma {:induction false} ConcatAppend(a: seq<string>, b: seq<string>)
    ensures Concat(a + b) == Concat(a) + Concat(b)
  {
    if b == [] {
      assert a + b == a;
    } else {
      assert (a + b)[..|a + b| - 1] == a + b[..|b| - 1];
      ConcatAppend(a, b[..|b| - 1]);
    }
  }

  lemma OneConcat(s: string)
    ensures Concat([s]) == s
  {
    assert [s][..0] == [] && "" + s == s;
  }

  lemma ConcatCons(first: string, rest: seq<string>)
    ensures Concat([first] + rest) == first + Concat(rest)
  {
    ConcatAppend([first], rest);
    OneConcat(first);
  }

  lemma NonSpaceSnoc(parts: seq<string>, last: string)
    ensures NonSpace(Concat(parts + [last])) == NonSpace(Concat(parts)) + NonSpace(last)
  {
    assert (parts + [last])[..|parts|] == parts;
    NonSpaceConcat(Concat(parts), last);
  }

  lemma NewlineVanishes(rest: string)
    ensures NonSpace(['\n'] + rest) == NonSpace(rest)
  {
    assert (['\n'] + rest)[1..] == rest;
  }

  lemma {:induction false} StripLeftKeeps(s: string)
    ensures NonSpace(StripLeft(s)) == NonSpace(s)
    ensures StripLeft(s) != "" ==> !IsSpace(StripLeft(s)[0])
  {
    if s != "" && IsSpace(s[0]) {
      StripLeftKeeps(s[1..]);
    }
  }

  lemma {:induction false} StripRightKeeps(s: string)
    ensures NonSpace(StripRight(s)) == NonSpace(s)
    ensures StripRight(s) != "" ==> !IsSpace(StripRight(s)[|StripRight(s)| - 1]) && StripRight(s)[0] == s[0]
  {
    if s != "" && IsSpace(s[|s| - 1]) {
      var init, last := s[..|s| - 1], s[|s| - 1..];
      StripRightKeeps(init);
      assert s == init + last;
      NonSpaceConcat(init, last);
      assert NonSpace(last) == "";
    }
  }

  /** No white space at either end. */
  predicate IsStripped(s: string) {
    s != "" ==> !IsSpace(s[0]) && !IsSpace(s[|s| - 1])
  }

  lemma StripKeeps(s: string)
    ensures NonSpace(Strip(s)) == NonSpace(s) && IsStripped(Strip(s))
  {
    StripLeftKeeps(s);
    StripRightKeeps(StripLeft(s));
  }

  lemma {:induction false} JoinKeeps(lines: seq<string>)
    ensures NonSpace(Join(lines, '\n')) == NonSpace(Concat(lines))
  {
    if |lines| == 1 {
      OneConcat(lines[0]);
      assert lines == [lines[0]];
    } else if |lines| > 1 {
      var first, rest := lines[0], Join(lines[1..], '\n');
      JoinKeeps(lines[1..]);
      ConcatCons(first, lines[1..]);
      assert lines == [first] + lines[1..];
      assert first + ['\n'] + rest == first + (['\n'] + rest);
      NonSpaceConcat(first, ['\n'] + rest);
      NewlineVanishes(rest);
      NonSpaceConcat(first, Concat(lines[1..]));
    }
  }

  // --- Headings ---

  function Hashes(line: string): (n: nat)
    ensures n <= |line| && forall i :: 0 <= i < n ==> line[i] == '#'
    ensures n < |line| ==> line[n] != '#'
  {
    if line == "" || line[0] != '#' then 0 else 1 + Hashes(line[1..])
  }

  /** One to four #s and white space: the level and the title. Five #s are no heading. */
  function HeadingOf(line: string): Option<Heading> {
    var n := Hashes(line);
    if 1 <= n <= MAX_LEVEL && n < |line| && IsSpace(line[n]) then Some(Heading(n, Strip(line[n..]))) else None
  }

  function Marks(n: nat): string {
    if n == 0 then "" else "#" + Marks(n - 1)
  }

  lemma {:induction false} MarksAreHashes(n: nat, rest: string)
    requires rest == "" || rest[0] != '#'
    ensures |Marks(n)| == n && Hashes(Marks(n) + rest) == n && (Marks(n) + rest)[n..] == rest
  {
    var line := Marks(n) + rest;
    if n == 0 {
      assert line == rest;
    } else {
      MarksAreHashes(n - 1, rest);
      assert line[1..] == Marks(n - 1) + rest;
    }
  }

  lemma {:induction false} HashesAreMarks(line: string)
    ensures line == Marks(Hashes(line)) + line[Hashes(line)..]
  {
    if line != "" && line[0] == '#' {
      HashesAreMarks(line[1..]);
      assert line == "#" + line[1..];
    }
  }

  /** The pattern: one to four #s, white space, and the rest stripped is the title. */
  lemma HeadingOfDecides(line: string, h: Heading)
    ensures HeadingOf(line) == Some(h) <==>
            1 <= h.level <= 4 && exists rest: string ::
              rest != "" && IsSpace(rest[0]) && line == Marks(h.level) + rest && h.title == Strip(rest)
  {
    if HeadingOf(line) == Some(h) {
      HashesAreMarks(line);
      var rest := line[h.level..];
      assert rest != "" && rest[0] == line[h.level];
    }
    forall rest: string | rest != "" && IsSpace(rest[0]) && line == Marks(h.level) + rest && h.title == Strip(rest)
      ensures 1 <= h.level <= 4 ==> HeadingOf(line) == Some(h)
    {
      MarksAreHashes(h.level, rest);
      assert line[h.level] == rest[0];
    }
  }

  /** A later heading equals or outranks this one. */
  predicate IsClosedBy(h: Heading, later: seq<Heading>) {
    exists g :: g in later && g.level <= h.level
  }

  /** The headings that no later one equals or outranks, in order. */
  function Survivors(headings: seq<Heading>): seq<Heading> {
    if headings == [] then []
    else if IsClosedBy(headings[0], headings[1..]) then Survivors(headings[1..])
    else [headings[0]] + Survivors(headings[1..])
  }

  ghost predicate IsRising(trail: seq<Heading>) {
    forall i, j :: 0 <= i < j < |trail| ==> trail[i].level < trail[j].level
  }

  lemma {:induction false} SurvivorsAreHeadings(headings: seq<Heading>)
    ensures forall h :: h in Survivors(headings) ==> h in headings
  {
    if headings == [] {
    } else {
      SurvivorsAreHeadings(headings[1..]);
      assert forall h :: h in headings[1..] ==> h in headings;
    }
  }

  /** Levels strictly rise along the breadcrumb, whatever levels the document skips. */
  lemma {:induction false} SurvivorsRise(headings: seq<Heading>)
    ensures IsRising(Survivors(headings))
  {
    if headings == [] {
    } else {
      SurvivorsRise(headings[1..]);
      SurvivorsAreHeadings(headings[1..]);
      var rest := Survivors(headings[1..]);
      assert forall k :: 0 <= k < |rest| ==> rest[k] in rest;
    }
  }

  /** The inner loop: pop to the parent level. */
  function Popped(trail: seq<Heading>, level: nat): seq<Heading> {
    if trail != [] && trail[|trail| - 1].level >= level then Popped(trail[..|trail| - 1], level) else trail
  }

  /** On rising levels, popping keeps exactly the headings above the new one. */
  lemma {:induction false} PoppedFromFront(first: Heading, trail: seq<Heading>, level: nat)
    requires IsRising([first] + trail)
    ensures Popped([first] + trail, level) ==
            if first.level < level then [first] + Popped(trail, level) else Popped(trail, level)
  {
    var s := [first] + trail;
    if trail == [] {
      assert s[..0] == [];
    } else if s[|s| - 1].level >= level {
      assert s[..|s| - 1] == [first] + trail[..|trail| - 1];
      PoppedFromFront(first, trail[..|trail| - 1], level);
    } else {
      assert s[0].level < s[|s| - 1].level;
    }
  }

  lemma ClosedByOneMore(first: Heading, rest: seq<Heading>, h: Heading)
    ensures IsClosedBy(first, rest + [h]) <==> IsClosedBy(first, rest) || h.level <= first.level
  {
    assert h in rest + [h] && forall g :: g in rest ==> g in rest + [h];
  }

  lemma SurvivorsCons(first: Heading, rest: seq<Heading>)
    ensures Survivors([first] + rest) ==
            if IsClosedBy(first, rest) then Survivors(rest) else [first] + Survivors(rest)
  {
    assert ([first] + rest)[1..] == rest;
  }

  /** The next heading's breadcrumb is the old one popped to its parent level, and itself. */
  lemma {:induction false} SurvivorsStep(headings: seq<Heading>, h: Heading)
    ensures Survivors(headings + [h]) == Popped(Survivors(headings), h.level) + [h]
  {
    if headings == [] {
      SurvivorsCons(h, []);
      assert [h] + [] == [h] && headings + [h] == [h];
    } else {
      var first, rest := headings[0], headings[1..];
      SurvivorsStep(rest, h);
      SurvivorsStepCons(first, rest, h);
      assert headings == [first] + rest;
      Reassociate([first], rest, [h]);
    }
  }

  lemma SurvivorsStepCons(first: Heading, rest: seq<Heading>, h: Heading)
    requires Survivors(rest + [h]) == Popped(Survivors(rest), h.level) + [h]
    ensures Survivors([first] + (rest + [h])) == Popped(Survivors([first] + rest), h.level) + [h]
  {
    SurvivorsCons(first, rest);
    SurvivorsCons(first, rest + [h]);
    ClosedByOneMore(first, rest, h);
    if IsClosedBy(first, rest) {
    } else {
      SurvivorsRise([first] + rest);
      PoppedFromFront(first, Survivors(rest), h.level);
      Reassociate([first], Popped(Survivors(rest), h.level), [h]);
    }
  }

  // --- Cutting at bullets ---

  predicate IsBullet(s: string, k: nat) {
    k < |s| && (k == 0 || s[k - 1] == '\n') && "- " <= s[k..]
  }

  /** The first bullet from `k` on, or the end. */
  function NextBullet(s: string, k: nat): (n: nat)
    requires k <= |s|
    ensures k <= n <= |s|
    ensures forall j :: k <= j < n ==> !IsBullet(s, j)
    ensures n < |s| ==> IsBullet(s, n)
    decreases |s| - k
  {
    if k == |s| || IsBullet(s, k) then k else NextBullet(s, k + 1)
  }

  function AfterStart(s: string): seq<string>
    decreases |s|
  {
    if s == "" then [""]
    else
      var k := NextBullet(s, 1);
      if k == |s| then [s] else [s[..k]] + AfterStart(s[k..])
  }

  /** re.split before each line that starts a bullet; a bullet at the start leaves an empty piece. */
  function Pieces(s: string): seq<string> {
    if IsBullet(s, 0) then [""] + AfterStart(s) else AfterStart(s)
  }

  /** No later line starts a bullet, so there is nowhere else to cut. */
  ghost predicate IsOnePiece(s: string) {
    forall k: nat :: k > 0 ==> !IsBullet(s, k)
  }

  lemma PrefixIsOnePiece(s: string, n: nat)
    requires n <= |s| && forall k: nat :: 0 < k < n ==> !IsBullet(s, k)
    ensures IsOnePiece(s[..n])
  {
    forall k: nat | k > 0 ensures !IsBullet(s[..n], k) {
      if IsBullet(s[..n], k) {
        BulletInPrefix(s, n, k);
      }
    }
  }

  lemma BulletInPrefix(s: string, n: nat, k: nat)
    requires n <= |s| && IsBullet(s[..n], k)
    ensures IsBullet(s, k)
  {
    assert s[..n][k..] == s[k..n];
    assert s[k..][..2] == s[k..n][..2] == "- ";
  }

  lemma BulletInTail(s: string, k: nat)
    requires s != "" && k > 0 && IsBullet(s[1..], k)
    ensures IsBullet(s, k + 1)
  {
    assert s[1..][k..] == s[k + 1..];
  }

  lemma CutIsWhole(s: string, k: nat)
    requires k <= |s|
    ensures s[..k] + s[k..] == s
  {
  }

  lemma {:induction false} PiecesAreWhole(s: string)
    ensures Concat(AfterStart(s)) == s
    decreases |s|
  {
    OneConcat(s);
    if s == "" {
    } else {
      var k := NextBullet(s, 1);
      if k < |s| {
        PiecesAreWhole(s[k..]);
        assert AfterStart(s) == [s[..k]] + AfterStart(s[k..]);
        ConcatCons(s[..k], AfterStart(s[k..]));
        CutIsWhole(s, k);
      }
    }
  }

  lemma {:induction false} PiecesCannotBeCut(s: string)
    ensures forall p :: p in AfterStart(s) ==> IsOnePiece(p)
    decreases |s|
  {
    if s == "" {
    } else {
      var k := NextBullet(s, 1);
      PrefixIsOnePiece(s, k);
      if k < |s| {
        PiecesCannotBeCut(s[k..]);
      } else {
        assert s[..|s|] == s;
      }
    }
  }

  lemma {:induction false} StripLeftIsOnePiece(s: string)
    requires IsOnePiece(s)
    ensures IsOnePiece(StripLeft(s))
  {
    if s != "" && IsSpace(s[0]) {
      forall k: nat | k > 0 ensures !IsBullet(s[1..], k) {
        if IsBullet(s[1..], k) {
          BulletInTail(s, k);
        }
      }
      StripLeftIsOnePiece(s[1..]);
    }
  }

  lemma {:induction false} StripRightIsOnePiece(s: string)
    requires IsOnePiece(s)
    ensures IsOnePiece(StripRight(s))
  {
    if s != "" && IsSpace(s[|s| - 1]) {
      PrefixIsOnePiece(s, |s| - 1);
      StripRightIsOnePiece(s[..|s| - 1]);
    }
  }

  /** The pieces stripped, without those that are nothing but white space. */
  function StripAll(pieces: seq<string>): seq<string> {
    if pieces == [] then []
    else
      var before, p := StripAll(pieces[..|pieces| - 1]), Strip(pieces[|pieces| - 1]);
      if p == "" then before else before + [p]
  }

  lemma {:induction false} StripAllKeeps(pieces: seq<string>)
    ensures NonSpace(Concat(StripAll(pieces))) == NonSpace(Concat(pieces))
    ensures forall p :: p in StripAll(pieces) ==> p != "" && IsStripped(p)
  {
    if pieces == [] {
    } else {
      var before, last := pieces[..|pieces| - 1], pieces[|pieces| - 1];
      StripAllKeeps(before);
      StripKeeps(last);
      assert pieces == before + [last];
      NonSpaceSnoc(before, last);
      NonSpaceSnoc(StripAll(before), Strip(last));
      assert Strip(last) == "" ==> NonSpace(Strip(last)) == "";
    }
  }

  lemma {:induction false} StripAllOnePiece(pieces: seq<string>)
    requires forall p :: p in pieces ==> IsOnePiece(p)
    ensures forall p :: p in StripAll(pieces) ==> IsOnePiece(p)
  {
    if pieces == [] {
    } else {
      var before, last := pieces[..|pieces| - 1], pieces[|pieces| - 1];
      assert last in pieces && forall p :: p in before ==> p in pieces;
      StripAllOnePiece(before);
      StripLeftIsOnePiece(last);
      StripRightIsOnePiece(StripLeft(last));
    }
  }

  // --- Sections ---

  function Texts(body: string): seq<string> {
    if |body| > MAX_CHUNK then StripAll(Pieces(body)) else [body]
  }

  /** A text that can stand alone: short enough, or with nowhere to cut it. */
  ghost predicate IsChunkText(s: string) {
    s != "" && IsStripped(s) && (|s| <= MAX_CHUNK || IsOnePiece(s))
  }

  lemma TextsKeep(body: string)
    requires body != "" && IsStripped(body)
    ensures NonSpace(Concat(Texts(body))) == NonSpace(body)
    ensures forall p :: p in Texts(body) ==> IsChunkText(p)
  {
    if |body| > MAX_CHUNK {
      PiecesAreWhole(body);
      PiecesCannotBeCut(body);
      var pieces := Pieces(body);
      if IsBullet(body, 0) {
        ConcatCons("", AfterStart(body));
        assert "" + body == body;
        assert IsOnePiece("");
      }
      StripAllKeeps(pieces);
      StripAllOnePiece(pieces);
    } else {
      OneConcat(body);
    }
  }

  function Titles(trail: seq<Heading>, above: nat): seq<string> {
    if trail == [] then []
    else
      var last := trail[|trail| - 1];
      Titles(trail[..|trail| - 1], above) + if last.level > above then [last.title] else []
  }

  /** Of a breadcrumb only the document's own title is left out, and only if there is more. */
  lemma {:induction false} OnlyTitleIsDropped(trail: seq<Heading>)
    requires IsRising(trail) && trail != [] && trail[0].level >= 1
    ensures Titles(trail, 1) == Titles(if trail[0].level == 1 then trail[1..] else trail, 0)
  {
    var n := |trail| - 1;
    if n == 0 {
      assert trail[..0] == [] && trail[1..] == [];
    } else {
      OnlyTitleIsDropped(trail[..n]);
      assert trail[0].level < trail[n].level;
      assert trail[..n][1..] == trail[1..][..n - 1];
    }
  }

  /** The names with " > " between them. */
  function Crumbs(names: seq<string>): string {
    if names == [] then "" else if |names| == 1 then names[0] else names[0] + " > " + Crumbs(names[1..])
  }

  /** The headings below the document's own title, or the title, or the path. */
  function Breadcrumb(path: string, trail: seq<Heading>): string {
    var names := if Titles(trail, 1) != [] then Titles(trail, 1) else Titles(trail, 0);
    if Crumbs(names) != "" then Crumbs(names) else path
  }

  function ToChunks(path: string, heading: string, texts: seq<string>, tokenize: Tokenizer): (chunks: seq<Chunk>)
    ensures |chunks| == |texts|
    ensures forall k :: 0 <= k < |chunks| ==> chunks[k] == Chunk(path, heading, texts[k], tokenize(heading + " " + texts[k]))
  {
    if texts == [] then []
    else
      var last := texts[|texts| - 1];
      ToChunks(path, heading, texts[..|texts| - 1], tokenize) + [Chunk(path, heading, last, tokenize(heading + " " + last))]
  }

  function SectionChunks(path: string, trail: seq<Heading>, lines: seq<string>, tokenize: Tokenizer): seq<Chunk> {
    var body := Strip(Join(lines, '\n'));
    if body == "" then [] else ToChunks(path, Breadcrumb(path, trail), Texts(body), tokenize)
  }

  function TextOf(chunks: seq<Chunk>): string {
    if chunks == [] then "" else TextOf(chunks[..|chunks| - 1]) + chunks[|chunks| - 1].text
  }

  lemma {:induction false} TextOfAppend(a: seq<Chunk>, b: seq<Chunk>)
    ensures TextOf(a + b) == TextOf(a) + TextOf(b)
  {
    if b == [] {
      assert a + b == a;
    } else {
      assert (a + b)[..|a + b| - 1] == a + b[..|b| - 1];
      TextOfAppend(a, b[..|b| - 1]);
    }
  }

  lemma {:induction false} TextOfToChunks(path: string, heading: string, texts: seq<string>, tokenize: Tokenizer)
    ensures TextOf(ToChunks(path, heading, texts, tokenize)) == Concat(texts)
  {
    if texts == [] {
    } else {
      var before, last := texts[..|texts| - 1], texts[|texts| - 1];
      TextOfToChunks(path, heading, before, tokenize);
      var chunks := ToChunks(path, heading, texts, tokenize);
      assert chunks[..|chunks| - 1] == ToChunks(path, heading, before, tokenize);
    }
  }

  lemma SectionKeeps(path: string, trail: seq<Heading>, lines: seq<string>, tokenize: Tokenizer)
    ensures NonSpace(TextOf(SectionChunks(path, trail, lines, tokenize))) == NonSpace(Concat(lines))
    ensures forall c :: c in SectionChunks(path, trail, lines, tokenize) ==>
                          c.path == path && c.heading == Breadcrumb(path, trail) && IsChunkText(c.text)
                          && c.tokens == tokenize(c.heading + " " + c.text)
  {
    var body := Strip(Join(lines, '\n'));
    JoinKeeps(lines);
    StripKeeps(Join(lines, '\n'));
    if body == "" {
      assert NonSpace(body) == "";
    } else {
      TextsKeep(body);
      TextOfToChunks(path, Breadcrumb(path, trail), Texts(body), tokenize);
      assert forall k :: 0 <= k < |Texts(body)| ==> Texts(body)[k] in Texts(body);
    }
  }

  // --- Documents ---

  function Headings(lines: seq<string>): seq<Heading> {
    if lines == [] then []
    else
      var before, h := Headings(lines[..|lines| - 1]), HeadingOf(lines[|lines| - 1]);
      if h.Some? then before + [h.value] else before
  }

  /** The lines since the last heading. */
  function OpenLines(lines: seq<string>): seq<string> {
    if lines == [] || HeadingOf(lines[|lines| - 1]).Some? then []
    else OpenLines(lines[..|lines| - 1]) + [lines[|lines| - 1]]
  }

  /** Every line that is not a heading. */
  function ContentLines(lines: seq<string>): seq<string> {
    if lines == [] then []
    else
      var before, last := ContentLines(lines[..|lines| - 1]), lines[|lines| - 1];
      if HeadingOf(last).Some? then before else before + [last]
  }

  /** The chunks of the section that is still open after these lines. */
  function OpenChunks(path: string, lines: seq<string>, tokenize: Tokenizer): seq<Chunk> {
    SectionChunks(path, Survivors(Headings(lines)), OpenLines(lines), tokenize)
  }

  /** The chunks of the sections that a later heading has closed. */
  function ClosedChunks(path: string, lines: seq<string>, tokenize: Tokenizer): seq<Chunk> {
    if lines == [] then []
    else
      var before := lines[..|lines| - 1];
      var closed := ClosedChunks(path, before, tokenize);
      if HeadingOf(lines[|lines| - 1]).Some? then closed + OpenChunks(path, before, tokenize) else closed
  }

  function DocumentChunks(path: string, text: string, tokenize: Tokenizer): seq<Chunk> {
    var lines := Split(text, '\n');
    ClosedChunks(path, lines, tokenize) + OpenChunks(path, lines, tokenize)
  }

  lemma HeadingLine(path: string, before: seq<string>, line: string, tokenize: Tokenizer)
    requires HeadingOf(line).Some?
    ensures Headings(before + [line]) == Headings(before) + [HeadingOf(line).value]
    ensures OpenLines(before + [line]) == [] && ContentLines(before + [line]) == ContentLines(before)
    ensures ClosedChunks(path, before + [line], tokenize) ==
            ClosedChunks(path, before, tokenize) + OpenChunks(path, before, tokenize)
  {
    assert (before + [line])[..|before|] == before;
  }

  lemma ContentLine(path: string, before: seq<string>, line: string, tokenize: Tokenizer)
    requires HeadingOf(line).None?
    ensures Headings(before + [line]) == Headings(before)
    ensures OpenLines(before + [line]) == OpenLines(before) + [line]
    ensures ContentLines(before + [line]) == ContentLines(before) + [line]
    ensures ClosedChunks(path, before + [line], tokenize) == ClosedChunks(path, before, tokenize)
  {
    assert (before + [line])[..|before|] == before;
  }

  lemma OpenKeeps(path: string, lines: seq<string>, tokenize: Tokenizer)
    ensures NonSpace(TextOf(ClosedChunks(path, lines, tokenize) + OpenChunks(path, lines, tokenize))) ==
            NonSpace(TextOf(ClosedChunks(path, lines, tokenize))) + NonSpace(Concat(OpenLines(lines)))
  {
    var closed, open := ClosedChunks(path, lines, tokenize), OpenChunks(path, lines, tokenize);
    SectionKeeps(path, Survivors(Headings(lines)), OpenLines(lines), tokenize);
    TextOfAppend(closed, open);
    NonSpaceConcat(TextOf(closed), TextOf(open));
  }

  /** The closed sections and the open lines hold the characters of all content lines. */
  ghost predicate HoldsAll(path: string, lines: seq<string>, tokenize: Tokenizer) {
    NonSpace(TextOf(ClosedChunks(path, lines, tokenize))) + NonSpace(Concat(OpenLines(lines)))
    == NonSpace(Concat(ContentLines(lines)))
  }

  lemma HeadingHoldsAll(path: string, before: seq<string>, line: string, tokenize: Tokenizer)
    requires HoldsAll(path, before, tokenize) && HeadingOf(line).Some?
    ensures HoldsAll(path, before + [line], tokenize)
  {
    HeadingLine(path, before, line, tokenize);
    OpenKeeps(path, before, tokenize);
    assert NonSpace(Concat([])) == "";
  }

  lemma {:induction false} ContentHoldsAll(path: string, before: seq<string>, line: string, tokenize: Tokenizer)
    requires HoldsAll(path, before, tokenize) && HeadingOf(line).None?
    ensures HoldsAll(path, before + [line], tokenize)
  {
    var closed, open := ClosedChunks(path, before, tokenize), OpenLines(before);
    ContentLine(path, before, line, tokenize);
    NonSpaceSnoc(open, line);
    NonSpaceSnoc(ContentLines(before), line);
    Reassociate(NonSpace(TextOf(closed)), NonSpace(Concat(open)), NonSpace(line));
  }

  lemma {:induction false} ClosedAndOpenKeep(path: string, lines: seq<string>, tokenize: Tokenizer)
    ensures HoldsAll(path, lines, tokenize)
  {
    if lines == [] {
    } else {
      var before, last := lines[..|lines| - 1], lines[|lines| - 1];
      assert lines == before + [last];
      ClosedAndOpenKeep(path, before, tokenize);
      if HeadingOf(last).Some? {
        HeadingHoldsAll(path, before, last, tokenize);
      } else {
        ContentHoldsAll(path, before, last, tokenize);
      }
    }
  }

  /** Nothing is lost: the chunks' texts, in order, hold the characters of the lines that are not
      headings, in order, but for white space. */
  lemma ChunkingLosesNothing(path: string, text: string, tokenize: Tokenizer)
    ensures NonSpace(TextOf(DocumentChunks(path, text, tokenize))) == NonSpace(Concat(ContentLines(Split(text, '\n'))))
  {
    var lines := Split(text, '\n');
    ClosedAndOpenKeep(path, lines, tokenize);
    OpenKeeps(path, lines, tokenize);
  }

  /** A chunk comes from the lines of one section, which ends before line n, at a heading or the
      document's end. It stands under the headings that survive up to there, and cannot be cut further. */
  ghost predicate IsPlaced(path: string, lines: seq<string>, tokenize: Tokenizer, c: Chunk, n: nat) {
    && n <= |lines| && (n == |lines| || HeadingOf(lines[n]).Some?)
    && c in OpenChunks(path, lines[..n], tokenize)
    && c.path == path && IsChunkText(c.text)
    && c.heading == Breadcrumb(path, Survivors(Headings(lines[..n])))
    && c.tokens == tokenize(c.heading + " " + c.text)
  }

  lemma OpenIsPlaced(path: string, lines: seq<string>, tokenize: Tokenizer, n: nat, c: Chunk)
    requires n <= |lines| && (n == |lines| || HeadingOf(lines[n]).Some?)
    requires c in OpenChunks(path, lines[..n], tokenize)
    ensures IsPlaced(path, lines, tokenize, c, n)
  {
    SectionKeeps(path, Survivors(Headings(lines[..n])), OpenLines(lines[..n]), tokenize);
  }

  lemma {:induction false} ClosedIsPlaced(path: string, lines: seq<string>, tokenize: Tokenizer, n: nat, c: Chunk) returns (m: nat)
    requires n <= |lines| && c in ClosedChunks(path, lines[..n], tokenize)
    ensures IsPlaced(path, lines, tokenize, c, m)
  {
    var before := lines[..n - 1];
    assert lines[..n] == before + [lines[n - 1]];
    if HeadingOf(lines[n - 1]).Some? {
      HeadingLine(path, before, lines[n - 1], tokenize);
      if c in OpenChunks(path, before, tokenize) {
        OpenIsPlaced(path, lines, tokenize, n - 1, c);
        return n - 1;
      }
    } else {
      ContentLine(path, before, lines[n - 1], tokenize);
    }
    m := ClosedIsPlaced(path, lines, tokenize, n - 1, c);
  }

  lemma ChunkIsPlaced(path: string, text: string, tokenize: Tokenizer, c: Chunk) returns (n: nat)
    requires c in DocumentChunks(path, text, tokenize)
    ensures IsPlaced(path, Split(text, '\n'), tokenize, c, n)
  {
    var lines := Split(text, '\n');
    assert lines[..|lines|] == lines;
    if c in OpenChunks(path, lines, tokenize) {
      n := |lines|;
      OpenIsPlaced(path, lines, tokenize, n, c);
    } else {
      n := ClosedIsPlaced(path, lines, tokenize, |lines|, c);
    }
  }

  // --- The program ---

  /** flush */
  method Flush(path: string, trail: seq<Heading>, buf: seq<string>, tokenize: Tokenizer) returns (out: seq<Chunk>)
    ensures out == SectionChunks(path, trail, buf, tokenize)
  {
    out := [];
    var body := Strip(Join(buf, '\n'));
    if body == "" {
      return;
    }
    var heading := Breadcrumb(path, trail);
    var pieces := [body];
    if |body| > MAX_CHUNK {
      pieces := StripAll(Pieces(body));
    }
    for k := 0 to |pieces|
      invariant out == ToChunks(path, heading, pieces[..k], tokenize)
    {
      assert pieces[..k + 1][..k] == pieces[..k];
      out := out + [Chunk(path, heading, pieces[k], tokenize(heading + " " + pieces[k]))];
    }
    assert pieces[..|pieces|] == pieces;
  }

  method Pop(trail: seq<Heading>, level: nat) returns (popped: seq<Heading>)
    ensures popped == Popped(trail, level)
  {
    popped := trail;
    while popped != [] && popped[|popped| - 1].level >= level
      invariant Popped(popped, level) == Popped(trail, level)
    {
      popped := popped[..|popped| - 1];
    }
  }

  /** The loop's variables after the lines so far. */
  ghost predicate IsState(path: string, lines: seq<string>, tokenize: Tokenizer, out: seq<Chunk>, trail: seq<Heading>,
                          buf: seq<string>) {
    && out == ClosedChunks(path, lines, tokenize)
    && trail == Survivors(Headings(lines))
    && buf == OpenLines(lines)
  }

  lemma AfterHeading(path: string, lines: seq<string>, line: string, tokenize: Tokenizer, out: seq<Chunk>,
                                        trail: seq<Heading>, buf: seq<string>)
    requires IsState(path, lines, tokenize, out, trail, buf) && HeadingOf(line).Some?
    ensures var h := HeadingOf(line).value;
            IsState(path, lines + [line], tokenize, out + SectionChunks(path, trail, buf, tokenize),
                    Popped(trail, h.level) + [h], [])
  {
    HeadingLine(path, lines, line, tokenize);
    SurvivorsStep(Headings(lines), HeadingOf(line).value);
  }

  lemma AfterLine(path: string, lines: seq<string>, line: string, tokenize: Tokenizer, out: seq<Chunk>,
                                     trail: seq<Heading>, buf: seq<string>)
    requires IsState(path, lines, tokenize, out, trail, buf) && HeadingOf(line).None?
    ensures IsState(path, lines + [line], tokenize, out, trail, buf + [line])
  {
    ContentLine(path, lines, line, tokenize);
  }

  /** _chunk */
  method ChunkDocument(path: string, text: string, tokenize: Tokenizer) returns (out: seq<Chunk>)
    ensures out == DocumentChunks(path, text, tokenize)
    ensures NonSpace(TextOf(out)) == NonSpace(Concat(ContentLines(Split(text, '\n'))))
  {
    out := [];
    var lines := Split(text, '\n');
    var trail, buf := [], [];
    for k := 0 to |lines|
      invariant IsState(path, lines[..k], tokenize, out, trail, buf)
    {
      assert lines[..k + 1] == lines[..k] + [lines[k]];
      var heading := HeadingOf(lines[k]);
      if heading.Some? {
        AfterHeading(path, lines[..k], lines[k], tokenize, out, trail, buf);
        var more := Flush(path, trail, buf, tokenize);
        out, buf := out + more, [];
        trail := Pop(trail, heading.value.level);
        trail := trail + [heading.value];
      } else {
        AfterLine(path, lines[..k], lines[k], tokenize, out, trail, buf);
        buf := buf + [lines[k]];
      }
    }
    assert lines[..|lines|] == lines;
    var last := Flush(path, trail, buf, tokenize);
    out := out + last;
    ChunkingLosesNothing(path, text, tokenize);
  }
}

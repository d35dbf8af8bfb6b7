/**
 app-dags.py: check every member of an app's DAG archive, then write the accepted files into an
 empty staging directory. Paths are the names between their slashes.
 */
module DagArchive {
  import opened Text

  type Path = seq<string>

  type Bytes = seq<bv8>

  datatype Kind = Directory | Regular | Other

  datatype Member = Member(name: string, kind: Kind, data: Bytes)

  datatype File = File(name: string, data: Bytes)

  datatype Reason =
    | NotRegular(name: string)
    | BadName(name: string)
    | TooLarge(size: nat, name: string)
    | TooMany(count: nat)

  datatype Outcome = Unpacked(count: nat) | Refused(reason: Reason)

  const MAX_FILES := 200
  const MAX_FILE_BYTES := 1024 * 1024

  // --- Names ---

  predicate IsWordStart(c: char) {
    'A' <= c <= 'Z' || 'a' <= c <= 'z' || '0' <= c <= '9' || c == '_'
  }

  predicate IsWord(s: string) {
    s != "" && IsWordStart(s[0]) && forall i :: 0 < i < |s| ==> IsWordStart(s[i]) || s[i] == '-'
  }

  /** [A-Za-z0-9_][A-Za-z0-9_-]* */
  lemma WordExactly(s: string)
    ensures IsWord(s) <==>
            && s != "" && s[0] != '-'
            && forall c :: c in s ==> 'A' <= c <= 'Z' || 'a' <= c <= 'z' || '0' <= c <= '9' || c == '_' || c == '-'
  {
    if IsWord(s) {
      forall c | c in s ensures IsWordStart(c) || c == '-' {
        var i :| 0 <= i < |s| && s[i] == c;
      }
    } else if s != "" && IsWordStart(s[0]) {
      var i :| 0 < i < |s| && !IsWordStart(s[i]) && s[i] != '-';
      assert s[i] in s;
    } else if s != "" {
      assert s[0] in s;
    }
  }

  predicate IsFileName(s: string) {
    |s| > 3 && s[|s| - 3..] == ".py" && IsWord(s[..|s| - 3])
  }

  predicate IsPath(path: Path) {
    && path != [] && IsFileName(path[|path| - 1])
    && forall i :: 0 <= i < |path| - 1 ==> IsWord(path[i])
  }

  /** NAME.fullmatch */
  predicate IsName(name: string) {
    IsPath(Split(name, '/'))
  }

  lemma PathHasNoSlash(path: Path)
    requires IsPath(path)
    ensures forall p :: p in path ==> '/' !in p
  {
    forall p | p in path ensures '/' !in p {
      var k :| 0 <= k < |path| && path[k] == p;
      if k < |path| - 1 {
        assert IsWord(p);
      } else {
        assert p == p[..|p| - 3] + ".py" && IsWord(p[..|p| - 3]);
      }
    }
  }

  /** The pattern's own grammar: words ended by slashes, and a word ended by ".py". */
  lemma NamesAreGenerated(name: string)
    ensures IsName(name) <==> exists dirs: Path, stem: string ::
                                IsWord(stem) && (forall d :: d in dirs ==> IsWord(d)) && name == Join(dirs + [stem + ".py"], '/')
  {
    JoinSplit(name, '/');
    if IsName(name) {
      var path := Split(name, '/');
      var dirs, last := path[..|path| - 1], path[|path| - 1];
      var stem := last[..|last| - 3];
      assert last == stem + ".py" && path == dirs + [last];
      forall d | d in dirs ensures IsWord(d) {
        var i :| 0 <= i < |dirs| && dirs[i] == d;
      }
    }
    forall dirs: Path, stem: string
      | IsWord(stem) && (forall d :: d in dirs ==> IsWord(d)) && name == Join(dirs + [stem + ".py"], '/')
      ensures IsName(name)
    {
      GeneratedIsName(dirs, stem);
    }
  }

  lemma GeneratedIsName(dirs: Path, stem: string)
    requires IsWord(stem) && forall d :: d in dirs ==> IsWord(d)
    ensures IsName(Join(dirs + [stem + ".py"], '/'))
  {
    var last := stem + ".py";
    var path := dirs + [last];
    assert last[..|last| - 3] == stem && last[|last| - 3..] == ".py";
    assert forall i :: 0 <= i < |path| - 1 ==> path[i] == dirs[i] && dirs[i] in dirs;
    PathHasNoSlash(path);
    SplitJoin(path, '/');
  }

  /** What a path leads to from a directory, step by step, as the operating system follows it. */
  function Resolve(base: Path, steps: Path): Path
    decreases |steps|
  {
    if steps == [] then base
    else if steps[0] == "" || steps[0] == "." then Resolve(base, steps[1..])
    else if steps[0] == ".." then Resolve(if base == [] then [] else base[..|base| - 1], steps[1..])
    else Resolve(base + [steps[0]], steps[1..])
  }

  lemma {:induction false} PlainStepsDescend(base: Path, steps: Path)
    requires forall s :: s in steps ==> s != "" && s != "." && s != ".."
    ensures Resolve(base, steps) == base + steps
    decreases |steps|
  {
    if steps == [] {
      assert base + steps == base;
    } else {
      assert steps[0] in steps && forall s :: s in steps[1..] ==> s in steps;
      PlainStepsDescend(base + [steps[0]], steps[1..]);
      assert base + [steps[0]] + steps[1..] == base + steps;
    }
  }

  /** An accepted name leads to a place below the destination. */
  lemma NamesStayUnder(dest: Path, name: string)
    requires IsName(name)
    ensures Resolve(dest, Split(name, '/')) == dest + Split(name, '/') && Split(name, '/') != []
  {
    var path := Split(name, '/');
    forall s | s in path ensures s != "" && s != "." && s != ".." {
      var k :| 0 <= k < |path| && path[k] == s;
      assert k < |path| - 1 ==> IsWord(s);
    }
    PlainStepsDescend(dest, path);
  }

  /** No accepted name is a directory on the way to another. */
  lemma NamesDoNotNest(a: string, b: string, k: nat)
    requires IsName(a) && IsName(b) && k < |Split(b, '/')|
    ensures Split(a, '/') != Split(b, '/')[..k]
  {
    var p, q := Split(a, '/'), Split(b, '/');
    if k > 0 {
      var last := p[|p| - 1];
      assert last[|last| - 3] == last[|last| - 3..][0] == '.';
      assert q[..k][k - 1] == q[k - 1] && IsWord(q[k - 1]);
      assert !IsWord(last);
    }
  }

  lemma SplitIsInjective(a: string, b: string)
    requires Split(a, '/') == Split(b, '/')
    ensures a == b
  {
    JoinSplit(a, '/');
    JoinSplit(b, '/');
  }

  // --- Checking ---

  datatype Verdict = Skip | Take(file: File) | Bad(reason: Reason)

  function PlainName(name: string): string {
    if |name| >= 2 && name[..2] == "./" then name[2..] else name
  }

  function Judge(m: Member): Verdict {
    var name := PlainName(m.name);
    if name == "" || name == "." then Skip
    else if m.kind.Directory? then Skip
    else if !m.kind.Regular? then Bad(NotRegular(m.name))
    else if !IsName(name) then Bad(BadName(m.name))
    else if |m.data| > MAX_FILE_BYTES then Bad(TooLarge(|m.data|, m.name))
    else Take(File(name, m.data))
  }

  /** The files of the members that are taken, in order. */
  function Taken(members: seq<Member>): (files: seq<File>)
    ensures forall f :: f in files ==> IsName(f.name) && |f.data| <= MAX_FILE_BYTES
  {
    if members == [] then []
    else
      var before := Taken(members[..|members| - 1]);
      var verdict := Judge(members[|members| - 1]);
      if verdict.Take? then before + [verdict.file] else before
  }

  /** The members before the first bad one are all fine. */
  ghost predicate IsFirstBad(members: seq<Member>, i: nat, reason: Reason) {
    && i < |members| && Judge(members[i]) == Bad(reason)
    && forall j :: 0 <= j < i ==> !Judge(members[j]).Bad?
  }

  ghost predicate AllFine(members: seq<Member>) {
    forall m :: m in members ==> !Judge(m).Bad?
  }

  // --- What is written ---

  /** Each name with the bytes of its last file. */
  function LastBytes(files: seq<File>): map<Path, Bytes> {
    if files == [] then map[]
    else
      var last := files[|files| - 1];
      LastBytes(files[..|files| - 1])[Split(last.name, '/') := last.data]
  }

  lemma {:induction false} LastBytesAreTheLast(files: seq<File>, i: nat)
    requires i < |files| && forall j :: i < j < |files| ==> files[j].name != files[i].name
    ensures Split(files[i].name, '/') in LastBytes(files)
    ensures LastBytes(files)[Split(files[i].name, '/')] == files[i].data
  {
    var n := |files| - 1;
    if i == n {
    } else {
      assert files[..n][i] == files[i];
      LastBytesAreTheLast(files[..n], i);
      if Split(files[n].name, '/') == Split(files[i].name, '/') {
        SplitIsInjective(files[n].name, files[i].name);
      }
    }
  }

  lemma {:induction false} LastBytesAreFiles(files: seq<File>, path: Path)
    requires path in LastBytes(files)
    ensures exists i :: 0 <= i < |files| && Split(files[i].name, '/') == path && files[i].data == LastBytes(files)[path]
  {
    var n := |files| - 1;
    if Split(files[n].name, '/') != path {
      LastBytesAreFiles(files[..n], path);
      var i :| 0 <= i < n && Split(files[..n][i].name, '/') == path && files[..n][i].data == LastBytes(files[..n])[path];
      assert files[..n][i] == files[i];
    }
  }

  /** The directories on the way to a path. */
  function Parents(path: Path): set<Path> {
    set k | 0 < k < |path| :: path[..k]
  }

  ghost function ParentsOf(files: seq<File>): set<Path> {
    if files == [] then {}
    else ParentsOf(files[..|files| - 1]) + Parents(Split(files[|files| - 1].name, '/'))
  }

  lemma {:induction false} ParentsOfHasParent(files: seq<File>, dir: Path)
    requires dir in ParentsOf(files)
    ensures exists i :: 0 <= i < |files| && dir in Parents(Split(files[i].name, '/'))
  {
    var n := |files| - 1;
    if dir !in Parents(Split(files[n].name, '/')) {
      ParentsOfHasParent(files[..n], dir);
      var i :| 0 <= i < n && dir in Parents(Split(files[..n][i].name, '/'));
      assert files[..n][i] == files[i];
    }
  }

  lemma {:induction false} HasParents(files: seq<File>, i: nat)
    requires i < |files|
    ensures Parents(Split(files[i].name, '/')) <= ParentsOf(files)
  {
    var n := |files| - 1;
    if i == n {
    } else {
      assert files[..n][i] == files[i];
      HasParents(files[..n], i);
    }
  }

  /** The directories made are exactly those on the way to a file. */
  lemma {:induction false} OnlyNeededDirectories(files: seq<File>)
    ensures forall dir :: dir in ParentsOf(files) <==> exists path :: path in LastBytes(files) && dir in Parents(path)
  {
    forall dir ensures dir in ParentsOf(files) <==> exists path :: path in LastBytes(files) && dir in Parents(path) {
      if dir in ParentsOf(files) {
        ParentsOfHasParent(files, dir);
        var i :| 0 <= i < |files| && dir in Parents(Split(files[i].name, '/'));
        IsWritten(files, i);
      }
      forall path | path in LastBytes(files) && dir in Parents(path) ensures dir in ParentsOf(files) {
        LastBytesAreFiles(files, path);
        var i :| 0 <= i < |files| && Split(files[i].name, '/') == path;
        HasParents(files, i);
      }
    }
  }

  lemma {:induction false} IsWritten(files: seq<File>, i: nat)
    requires i < |files|
    ensures Split(files[i].name, '/') in LastBytes(files)
  {
    var n := |files| - 1;
    if i == n {
    } else {
      assert files[..n][i] == files[i];
      IsWritten(files[..n], i);
    }
  }

  /** When the next file's turn comes, no directory on its way is a file and no directory has its name. */
  lemma NoConflict(files: seq<File>, next: File)
    requires IsName(next.name) && forall f :: f in files ==> IsName(f.name)
    ensures Parents(Split(next.name, '/')) !! LastBytes(files).Keys
    ensures Split(next.name, '/') !in ParentsOf(files) + Parents(Split(next.name, '/'))
  {
    var path := Split(next.name, '/');
    forall dir | dir in Parents(path) ensures dir !in LastBytes(files) {
      if dir in LastBytes(files) {
        LastBytesAreFiles(files, dir);
        var i :| 0 <= i < |files| && Split(files[i].name, '/') == dir;
        var k :| 0 < k < |path| && dir == path[..k];
        NamesDoNotNest(files[i].name, next.name, k);
      }
    }
    if path in ParentsOf(files) {
      ParentsOfHasParent(files, path);
      var i :| 0 <= i < |files| && path in Parents(Split(files[i].name, '/'));
      var k :| 0 < k < |Split(files[i].name, '/')| && path == Split(files[i].name, '/')[..k];
      NamesDoNotNest(next.name, files[i].name, k);
    }
  }

  // --- The archive's members ---

  /** A member's name without the leading ./ that is cut off once. */
  ghost predicate CutsTo(name: string, cut: string) {
    name == "./" + cut || (name == cut && !("./" <= name))
  }

  lemma PlainNameIsCut(name: string)
    ensures CutsTo(name, PlainName(name))
    ensures forall cut :: CutsTo(name, cut) ==> cut == PlainName(name)
  {
    if "./" <= name {
      assert name == "./" + name[2..];
    }
    forall cut | CutsTo(name, cut) ensures cut == PlainName(name) {
      if name == "./" + cut {
        assert name[..2] == "./" && name[2..] == cut;
      }
    }
  }

  /** The member is not the destination itself, and its name, cut, is `cut`. */
  ghost predicate IsEntry(m: Member, cut: string) {
    CutsTo(m.name, cut) && cut != "" && cut != "."
  }

  /** A regular member whose name leads to the path. */
  ghost predicate IsFileAt(m: Member, path: Path) {
    m.kind.Regular? && exists cut :: IsEntry(m, cut) && Split(cut, '/') == path
  }

  /** Why a member is refused: it is no directory, and not regular, or named against the pattern, or too large. */
  ghost predicate IsBadFor(m: Member, reason: Reason) {
    && !m.kind.Directory?
    && exists cut :: IsEntry(m, cut)
                     && if !m.kind.Regular? then reason == NotRegular(m.name)
                        else if !IsName(cut) then reason == BadName(m.name)
                        else |m.data| > 1024 * 1024 && reason == TooLarge(|m.data|, m.name)
  }

  lemma BadExactly(m: Member, reason: Reason)
    ensures Judge(m) == Bad(reason) <==> IsBadFor(m, reason)
  {
    PlainNameIsCut(m.name);
    assert IsEntry(m, PlainName(m.name)) <==> PlainName(m.name) != "" && PlainName(m.name) != ".";
  }

  /** A member that is taken is a file, with its own bytes. */
  lemma TakenIsFile(m: Member)
    requires !Judge(m).Bad?
    ensures Judge(m).Take? <==> exists path :: IsFileAt(m, path)
    ensures Judge(m).Take? ==>
              forall path :: IsFileAt(m, path) <==> path == Split(Judge(m).file.name, '/')
    ensures Judge(m).Take? ==> Judge(m).file.data == m.data
  {
    PlainNameIsCut(m.name);
    var cut := PlainName(m.name);
    if IsEntry(m, cut) && m.kind.Regular? {
      assert IsFileAt(m, Split(cut, '/'));
    }
  }

  ghost predicate IsRegular(m: Member) {
    exists path :: IsFileAt(m, path)
  }

  /** The places of the regular members in the archive. */
  ghost function RegularAmong(members: seq<Member>): set<nat> {
    set i: nat | i < |members| && IsRegular(members[i])
  }

  /** The last member for the path. */
  ghost predicate IsLastAt(members: seq<Member>, i: nat, path: Path) {
    && i < |members| && IsFileAt(members[i], path)
    && forall j :: i < j < |members| ==> !IsFileAt(members[j], path)
  }

  lemma TakenOfOneMore(before: seq<Member>, m: Member)
    requires !Judge(m).Bad?
    ensures Taken(before + [m]) == Taken(before) + if IsRegular(m) then [Judge(m).file] else []
    ensures LastBytes(Taken(before + [m])) ==
            if IsRegular(m) then LastBytes(Taken(before))[Split(Judge(m).file.name, '/') := m.data] else LastBytes(Taken(before))
  {
    TakenIsFile(m);
    assert (before + [m])[..|before|] == before;
    var taken := Taken(before + [m]);
    assert IsRegular(m) ==> taken[..|taken| - 1] == Taken(before);
    assert !IsRegular(m) ==> taken == Taken(before);
  }

  lemma LastOfOneMore(before: seq<Member>, m: Member, i: nat, path: Path)
    ensures IsLastAt(before + [m], i, path) <==>
            (i == |before| && IsFileAt(m, path)) || (IsLastAt(before, i, path) && !IsFileAt(m, path))
  {
    var all := before + [m];
    assert all[|before|] == m && forall j :: 0 <= j < |before| ==> all[j] == before[j];
  }

  lemma RegularOfOneMore(before: seq<Member>, m: Member)
    ensures |RegularAmong(before + [m])| == |RegularAmong(before)| + if IsRegular(m) then 1 else 0
  {
    var all := before + [m];
    assert all[|before|] == m && forall i :: 0 <= i < |before| ==> all[i] == before[i];
    assert RegularAmong(all) == RegularAmong(before) + if IsRegular(m) then {|before|} else {};
  }

  lemma {:induction false} TakenAreRegular(members: seq<Member>)
    requires AllFine(members)
    ensures |Taken(members)| == |RegularAmong(members)|
  {
    if members == [] {
      assert RegularAmong(members) == {};
    } else {
      var n := |members| - 1;
      var front := members[..n];
      assert members == front + [members[n]];
      TakenAreRegular(front);
      TakenOfOneMore(front, members[n]);
      RegularOfOneMore(front, members[n]);
    }
  }

  lemma {:induction false} LastMemberIsWritten(members: seq<Member>, i: nat, path: Path)
    requires AllFine(members) && IsLastAt(members, i, path)
    ensures path in LastBytes(Taken(members)) && LastBytes(Taken(members))[path] == members[i].data
  {
    var n := |members| - 1;
    var front, m := members[..n], members[n];
    assert members == front + [m];
    LastOfOneMore(front, m, i, path);
    TakenOfOneMore(front, m);
    TakenIsFile(m);
    if i < n {
      LastMemberIsWritten(front, i, path);
    }
  }

  lemma {:induction false} WrittenIsMember(members: seq<Member>, path: Path) returns (i: nat)
    requires AllFine(members) && path in LastBytes(Taken(members))
    ensures IsLastAt(members, i, path)
  {
    var n := |members| - 1;
    var front, m := members[..n], members[n];
    assert members == front + [m];
    TakenOfOneMore(front, m);
    TakenIsFile(m);
    if IsFileAt(m, path) {
      i := n;
    } else {
      i := WrittenIsMember(front, path);
    }
    LastOfOneMore(front, m, i, path);
  }

  /** The staging directory holds the last member's bytes at each path a regular member leads to, nothing
      else, and just the directories on the way to these. */
  ghost predicate Holds(members: seq<Member>, files: map<Path, Bytes>, dirs: set<Path>) {
    && (forall path :: path in files <==> exists i: nat :: IsLastAt(members, i, path))
    && (forall i: nat, path :: IsLastAt(members, i, path) ==> path in files && files[path] == members[i].data)
    && (forall dir :: dir in dirs <==> exists path, k :: path in files && 0 < k < |path| && dir == path[..k])
  }

  lemma TakenHolds(members: seq<Member>)
    requires AllFine(members)
    ensures Holds(members, LastBytes(Taken(members)), ParentsOf(Taken(members)))
  {
    var files := LastBytes(Taken(members));
    forall path ensures path in files <==> exists i: nat :: IsLastAt(members, i, path) {
      if path in files {
        var i := WrittenIsMember(members, path);
      }
      forall i: nat | IsLastAt(members, i, path) ensures path in files {
        LastMemberIsWritten(members, i, path);
      }
    }
    forall i: nat, path | IsLastAt(members, i, path) ensures path in files && files[path] == members[i].data {
      LastMemberIsWritten(members, i, path);
    }
    OnlyNeededDirectories(Taken(members));
  }

  ghost predicate AllGood(members: seq<Member>) {
    forall m, reason :: m in members ==> !IsBadFor(m, reason)
  }

  lemma FineIsGood(members: seq<Member>)
    ensures AllFine(members) <==> AllGood(members)
  {
    forall m, reason ensures Judge(m) == Bad(reason) <==> IsBadFor(m, reason) {
      BadExactly(m, reason);
    }
    if !AllFine(members) {
      var m :| m in members && Judge(m).Bad?;
      assert IsBadFor(m, Judge(m).reason);
    }
  }

  /** The i-th member is the first that is refused. */
  ghost predicate IsRefusedAt(members: seq<Member>, i: nat, reason: Reason) {
    && i < |members| && IsBadFor(members[i], reason)
    && forall j, other :: 0 <= j < i ==> !IsBadFor(members[j], other)
  }

  lemma FirstBadIsRefused(members: seq<Member>, i: nat, reason: Reason)
    requires IsFirstBad(members, i, reason)
    ensures IsRefusedAt(members, i, reason)
  {
    BadExactly(members[i], reason);
    forall j, other | 0 <= j < i ensures !IsBadFor(members[j], other) {
      BadExactly(members[j], other);
    }
  }

  /** The staging directory, which app-deploy.sh makes empty. */
  class Staging {
    var files: map<Path, Bytes>
    var dirs: set<Path>

    ghost predicate IsEmpty()
      reads this
    {
      files == map[] && dirs == {}
    }

    constructor ()
      ensures IsEmpty()
    {
      files, dirs := map[], {};
    }

    /** os.makedirs of a path's directory: possible while no directory on the way is a file. */
    method MakeParents(path: Path)
      requires Parents(path) !! files.Keys
      modifies this`dirs
      ensures dirs == old(dirs) + Parents(path)
    {
      dirs := dirs + Parents(path);
    }

    /** Opening for writing and writing: possible if the directory is there and the path is not one. */
    method Write(path: Path, data: Bytes)
      requires Parents(path) <= dirs && path !in dirs
      modifies this`files
      ensures files == old(files)[path := data]
    {
      files := files[path := data];
    }

    /** The second loop of main. Every archive that gets here meets what each write requires. */
    method WriteAll(taken: seq<File>)
      requires IsEmpty() && forall f :: f in taken ==> IsName(f.name)
      modifies this
      ensures files == LastBytes(taken) && dirs == ParentsOf(taken)
    {
      for i := 0 to |taken|
        invariant files == LastBytes(taken[..i])
        invariant dirs == ParentsOf(taken[..i])
      {
        var path := Split(taken[i].name, '/');
        assert taken[..i + 1][..i] == taken[..i] && taken[i] in taken;
        NoConflict(taken[..i], taken[i]);
        MakeParents(path);
        Write(path, taken[i].data);
      }
      assert taken[..|taken|] == taken;
    }

    /** main. Nothing is written unless every member is fine and they are few enough. */
    method Unpack(members: seq<Member>) returns (outcome: Outcome)
      requires IsEmpty()
      modifies this
      ensures outcome.Refused? ==> IsEmpty()
      ensures outcome.Unpacked? <==> AllGood(members) && |RegularAmong(members)| <= 200
      ensures outcome.Unpacked? ==> outcome.count == |RegularAmong(members)| && Holds(members, files, dirs)
      ensures outcome.Refused? && !AllGood(members) ==> exists i: nat :: IsRefusedAt(members, i, outcome.reason)
      ensures outcome.Refused? && AllGood(members) ==> outcome.reason == TooMany(|RegularAmong(members)|)
    {
      FineIsGood(members);
      if AllFine(members) {
        TakenAreRegular(members);
        TakenHolds(members);
      }
      var reason, taken := Check(members);
      if reason.Some? {
        if !AllFine(members) {
          ghost var i: nat :| IsFirstBad(members, i, reason.value);
          FirstBadIsRefused(members, i, reason.value);
        }
        return Refused(reason.value);
      }
      WriteAll(taken);
      outcome := Unpacked(|taken|);
    }
  }

  lemma TakenPush(members: seq<Member>, i: nat)
    requires i < |members|
    ensures var verdict := Judge(members[i]);
            Taken(members[..i + 1]) == Taken(members[..i]) + if verdict.Take? then [verdict.file] else []
  {
    assert members[..i + 1][..i] == members[..i];
  }

  lemma FirstBadIsNotFine(members: seq<Member>, i: nat, reason: Reason)
    requires i < |members| && Judge(members[i]) == Bad(reason) && forall j :: 0 <= j < i ==> !Judge(members[j]).Bad?
    ensures IsFirstBad(members, i, reason) && !AllFine(members)
  {
    assert members[i] in members;
  }

  /** The first loop of main, and the limit behind it. */
  method Check(members: seq<Member>) returns (reason: Option<Reason>, taken: seq<File>)
    ensures reason.None? <==> AllFine(members) && |Taken(members)| <= MAX_FILES
    ensures reason.None? ==> taken == Taken(members)
    ensures reason.Some? && !AllFine(members) ==> exists i: nat :: IsFirstBad(members, i, reason.value)
    ensures reason.Some? && AllFine(members) ==> reason.value == TooMany(|Taken(members)|)
  {
    taken := [];
    for i := 0 to |members|
      invariant taken == Taken(members[..i])
      invariant forall j :: 0 <= j < i ==> !Judge(members[j]).Bad?
    {
      var m := members[i];
      TakenPush(members, i);
      var name := PlainName(m.name);
      if name == "" || name == "." {
        continue;
      }
      if m.kind.Directory? {
        continue;
      }
      if !m.kind.Regular? {
        FirstBadIsNotFine(members, i, NotRegular(m.name));
        return Some(NotRegular(m.name)), taken;
      }
      if !IsName(name) {
        FirstBadIsNotFine(members, i, BadName(m.name));
        return Some(BadName(m.name)), taken;
      }
      if |m.data| > MAX_FILE_BYTES {
        FirstBadIsNotFine(members, i, TooLarge(|m.data|, m.name));
        return Some(TooLarge(|m.data|, m.name)), taken;
      }
      taken := taken + [File(name, m.data)];
    }
    assert members[..|members|] == members;
    reason := if |taken| > MAX_FILES then Some(TooMany(|taken|)) else None;
  }
}

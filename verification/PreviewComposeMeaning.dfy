/** What each setting of a service comes out as, in terms of the fragment's own values. */
module PreviewComposeMeaning {
  import opened Text
  import opened JsonValues
  import opened PreviewCompose
  import opened PreviewComposeProofs

  // --- Which images are replaced ---

  /** An image of the repository, with a tag or without. */
  ghost predicate IsOf(image: string, repository: string) {
    || (exists tag :: ':' !in tag && image == repository + ":" + tag)
    || (':' !in image && image == repository)
  }

  lemma {:induction false} CutsAtLastColon(repository: string, tag: string)
    requires ':' !in tag
    ensures BeforeLastColon(repository + ":" + tag) == repository
    decreases |tag|
  {
    var s := repository + ":" + tag;
    assert s[|repository|] == ':';
    if tag == "" {
      assert s[..|s| - 1] == repository;
    } else {
      var front := tag[..|tag| - 1];
      assert s[|s| - 1] == tag[|tag| - 1] && tag[|tag| - 1] in tag;
      assert s[..|s| - 1] == repository + ":" + front;
      CutsAtLastColon(repository, front);
    }
  }

  lemma {:induction false} LastColon(s: string) returns (tag: string)
    requires ':' in s
    ensures ':' !in tag && s == BeforeLastColon(s) + ":" + tag
  {
    var front, last := s[..|s| - 1], s[|s| - 1];
    assert s == front + [last];
    if last == ':' {
      tag := "";
    } else {
      tag := LastColon(front);
      tag := tag + [last];
    }
  }

  lemma RepositoryExactly(image: string, repository: string)
    ensures BeforeLastColon(image) == repository <==> IsOf(image, repository)
  {
    if ':' in image {
      var tag := LastColon(image);
    }
    forall tag | ':' !in tag && image == repository + ":" + tag ensures BeforeLastColon(image) == repository {
      CutsAtLastColon(repository, tag);
    }
  }

  lemma PreviewEnding(s: string, r: string)
    ensures r == s || r == WithoutPreview(s) <==> r == s || s == r + "-preview"
  {
    if s == r + "-preview" {
      assert s[|s| - |"-preview"|..] == "-preview" && s[..|s| - |"-preview"|] == r;
    }
    if WithoutPreview(s) != s {
      assert s == WithoutPreview(s) + "-preview";
    }
  }

  /** The image is of the repository the pull request's image is of, or of the one that is the preview of. */
  ghost predicate IsApps(image: string, prImage: string) {
    exists repository ::
      IsOf(image, repository) && (IsOf(prImage, repository) || IsOf(prImage, repository + "-preview"))
  }

  function ImageText(repr: Json -> string, image: Option<Json>): string {
    if image.None? then "" else PyStr(repr, image.value)
  }

  lemma OwnImageExactly(repr: Json -> string, to: Target, image: Option<Json>)
    ensures IsOwnImage(repr, to, image) <==> IsApps(ImageText(repr, image), to.image)
  {
    var text := ImageText(repr, image);
    var mine, theirs := BeforeLastColon(text), BeforeLastColon(to.image);
    PreviewEnding(theirs, mine);
    forall r ensures IsOf(text, r) <==> r == mine {
      RepositoryExactly(text, r);
    }
    RepositoryExactly(to.image, mine);
    RepositoryExactly(to.image, mine + "-preview");
  }

  lemma ImageComesOut(repr: Json -> string, to: Target, names: set<string>, svc: Dict)
    requires Rewritten(repr, to, names, svc).Some?
    ensures Get(Rewritten(repr, to, names, svc).value, "image") ==
            if IsApps(ImageText(repr, Get(svc, "image")), to.image) then Some(Str(to.image)) else Get(svc, "image")
  {
    OwnImageExactly(repr, to, Get(svc, "image"));
    KeyComesOut(repr, to, names, svc, "image");
    GetKeep(svc, "image", ALLOWED_KEYS);
    GetPut(Keep(svc, ALLOWED_KEYS), "image", Str(to.image), "image");
  }

  /** With the app's repository, or its preview repository, in the pull request's image: the app's image
      is replaced whatever its tag, and so is the preview's. */
  lemma AppImageIsReplaced(repository: string, tag: string, other: string)
    requires ':' !in tag && ':' !in other
    ensures IsApps(repository + ":" + other, repository + ":" + tag)
    ensures IsApps(repository + ":" + other, repository + "-preview:" + tag)
    ensures IsApps(repository + "-preview:" + other, repository + "-preview:" + tag)
    ensures ':' !in repository ==>
              IsApps(repository, repository + ":" + tag) && IsApps(repository, repository + "-preview:" + tag)
  {
    var preview := repository + "-preview";
    assert repository + "-preview:" + tag == preview + ":" + tag;
    assert repository + "-preview:" + other == preview + ":" + other;
    assert IsOf(repository + ":" + tag, repository) && IsOf(repository + ":" + other, repository);
    assert IsOf(preview + ":" + tag, preview) && IsOf(preview + ":" + other, preview);
    if ':' !in repository {
      assert IsOf(repository, repository);
    }
  }

  /** An image of another repository is not. */
  lemma OtherImageIsKept(mine: string, tag: string, theirs: string, other: string)
    requires ':' !in tag && ':' !in other && theirs != mine && mine != theirs + "-preview"
    ensures !IsApps(theirs + ":" + other, mine + ":" + tag)
  {
    forall r ensures IsOf(theirs + ":" + other, r) <==> r == theirs {
      CutsAtLastColon(theirs, other);
      RepositoryExactly(theirs + ":" + other, r);
    }
    CutsAtLastColon(mine, tag);
    RepositoryExactly(mine + ":" + tag, theirs);
    RepositoryExactly(mine + ":" + tag, theirs + "-preview");
  }

  // --- The other settings ---

  /** What a key gets, before the dependencies. */
  function KeyOf(repr: Json -> string, to: Target, svc: Dict, env: Dict, key: string): Option<Json> {
    Get(WithPlatform(WithImage(repr, to, Keep(svc, ALLOWED_KEYS)), env), key)
  }

  lemma KeyComesOut(repr: Json -> string, to: Target, names: set<string>, svc: Dict, key: string)
    requires Rewritten(repr, to, names, svc).Some? && key !in {"environment", "labels", "depends_on"}
    requires forall m :: m in PLATFORM ==> m.key != key
    ensures Get(Rewritten(repr, to, names, svc).value, key) == Get(WithImage(repr, to, Keep(svc, ALLOWED_KEYS)), key)
  {
    var kept := WithImage(repr, to, Keep(svc, ALLOWED_KEYS));
    var env := NewEnv(to, Get(svc, "environment")).value;
    PlatformElsewhere(kept, env, key);
    DependsElsewhere(repr, to, names, svc, key);
  }

  lemma PlatformElsewhere(d: Dict, env: Dict, key: string)
    requires key !in {"environment", "labels"} && forall m :: m in PLATFORM ==> m.key != key
    ensures Get(WithPlatform(d, env), key) == Get(d, key)
  {
    var d1 := Put(d, "environment", Obj(env));
    GetPut(PutAll(d1, PLATFORM), "labels", NO_LABELS, key);
    PutAllOther(d1, PLATFORM, key);
    GetPut(d, "environment", Obj(env), key);
  }

  lemma DependsElsewhere(repr: Json -> string, to: Target, names: set<string>, svc: Dict, key: string)
    requires Rewritten(repr, to, names, svc).Some? && key != "depends_on"
    ensures Get(Rewritten(repr, to, names, svc).value, key) ==
            KeyOf(repr, to, svc, NewEnv(to, Get(svc, "environment")).value, key)
  {
    var d := WithPlatform(WithImage(repr, to, Keep(svc, ALLOWED_KEYS)), NewEnv(to, Get(svc, "environment")).value);
    if Get(svc, "depends_on").Some? {
      GetPut(d, "depends_on", NewDepends(names, Get(svc, "depends_on").value).value, key);
    }
  }

  const KEPT: set<string> := {
    "command", "entrypoint", "healthcheck", "working_dir", "user", "restart", "stop_grace_period", "stop_signal",
    "init", "read_only", "tmpfs", "expose"
  }

  const REPLACED: set<string> := {
    "image", "environment", "depends_on", "labels", "env_file", "networks", "mem_limit", "cpus", "pids_limit",
    "security_opt", "cap_drop"
  }

  lemma AllowedKeys()
    ensures ALLOWED_KEYS == KEPT + REPLACED && KEPT !! REPLACED
    ensures forall m :: m in PLATFORM ==> m.key in REPLACED
  {
  }

  /** Twelve settings come out as they were, and none that is neither of these nor replaced comes out at all. */
  lemma OthersComeOut(repr: Json -> string, to: Target, names: set<string>, svc: Dict, key: string)
    requires Rewritten(repr, to, names, svc).Some? && key !in REPLACED
    ensures Get(Rewritten(repr, to, names, svc).value, key) == if key in KEPT then Get(svc, key) else None
  {
    var kept := Keep(svc, ALLOWED_KEYS);
    AllowedKeys();
    KeyComesOut(repr, to, names, svc, key);
    GetPut(kept, "image", Str(to.image), key);
    GetKeep(svc, key, ALLOWED_KEYS);
  }

  /** The settings that bound a preview service. */
  lemma PlatformComesOut(repr: Json -> string, to: Target, names: set<string>, svc: Dict)
    requires Rewritten(repr, to, names, svc).Some?
    ensures var t := Rewritten(repr, to, names, svc).value;
            && Get(t, "env_file") == Some(List([Str(".env")])) && Get(t, "networks") == Some(List([Str("preview")]))
            && Get(t, "mem_limit") == Some(Str("384m")) && Get(t, "cpus") == Some(Real(0.5))
            && Get(t, "pids_limit") == Some(Int(256)) && Get(t, "cap_drop") == Some(List([Str("ALL")]))
            && Get(t, "security_opt") == Some(List([Str("no-new-privileges:true")]))
  {
    RewrittenIsConfined(repr, to, names, svc);
    PlatformMembers();
  }

  lemma PlatformMembers()
    ensures Member("env_file", List([Str(".env")])) in PLATFORM && Member("networks", List([Str("preview")])) in PLATFORM
    ensures Member("mem_limit", Str("384m")) in PLATFORM && Member("cpus", Real(0.5)) in PLATFORM
    ensures Member("pids_limit", Int(256)) in PLATFORM && Member("cap_drop", List([Str("ALL")])) in PLATFORM
    ensures Member("security_opt", List([Str("no-new-privileges:true")])) in PLATFORM
  {
    assert PLATFORM[0] in PLATFORM && PLATFORM[1] in PLATFORM && PLATFORM[2] in PLATFORM && PLATFORM[3] in PLATFORM;
    assert PLATFORM[4] in PLATFORM && PLATFORM[5] in PLATFORM && PLATFORM[6] in PLATFORM;
  }

  // --- The environment ---

  /** The item of an environment list gives the variable the value. */
  predicate Sets(item: string, key: string, value: string) {
    '=' !in key && (item == key + "=" + value || (item == key && value == ""))
  }

  function Texts(items: seq<string>): seq<Json> {
    seq(|items|, i requires 0 <= i < |items| => Str(items[i]))
  }

  /** What the last item adds. */
  lemma OneMoreItem(items: seq<string>, item: string) returns (key: string, value: string)
    ensures Sets(item, key, value) && forall k, v :: Sets(item, k, v) ==> k == key && v == value
    ensures EnvFromList(Texts(items + [item])) == Put(EnvFromList(Texts(items)), key, Str(value))
  {
    var n := Find(item, '=');
    key, value := item[..n], if n == |item| then "" else item[n + 1..];
    assert n < |item| ==> item == key + "=" + value;
    forall k, v | Sets(item, k, v) ensures k == key && v == value {
      if item == k + "=" + v {
        FindAfter(k, '=', v);
        assert item[|k| + 1..] == v;
      }
    }
    assert Texts(items + [item])[..|items|] == Texts(items);
    assert Texts(items + [item])[|items|] == Str(item);
  }

  lemma ItemGets(items: seq<string>, item: string, key: string)
    ensures forall v :: Sets(item, key, v) ==> Get(EnvFromList(Texts(items + [item])), key) == Some(Str(v))
    ensures (forall v :: !Sets(item, key, v)) ==>
              Get(EnvFromList(Texts(items + [item])), key) == Get(EnvFromList(Texts(items)), key)
  {
    var k, v := OneMoreItem(items, item);
    GetPut(EnvFromList(Texts(items)), k, Str(v), key);
  }

  /** A variable has the value the last item that names it gives it. */
  lemma {:induction false} LastItemSets(items: seq<string>, i: nat, key: string, value: string)
    requires i < |items| && Sets(items[i], key, value)
    requires forall j, v :: i < j < |items| ==> !Sets(items[j], key, v)
    ensures Get(EnvFromList(Texts(items)), key) == Some(Str(value))
  {
    var n := |items| - 1;
    var front, last := items[..n], items[n];
    assert items == front + [last];
    ItemGets(front, last, key);
    if i < n {
      assert front[i] == items[i] && forall j :: i < j < n ==> front[j] == items[j];
      LastItemSets(front, i, key, value);
    } else {
      assert Sets(last, key, value);
    }
  }

  lemma {:induction false} UnnamedIsUnset(items: seq<string>, key: string)
    requires forall j, v :: 0 <= j < |items| ==> !Sets(items[j], key, v)
    ensures Get(EnvFromList(Texts(items)), key) == None
  {
    if items == [] {
    } else {
      var n := |items| - 1;
      var front := items[..n];
      assert items == front + [items[n]];
      ItemGets(front, items[n], key);
      assert forall j :: 0 <= j < n ==> front[j] == items[j];
      UnnamedIsUnset(front, key);
    }
  }

  /** The environment as the fragment gives it: a mapping, a list of texts, or nothing. */
  datatype Env = Mapping(members: Dict) | Items(items: seq<string>) | Nothing

  function EnvValue(env: Env): Option<Json> {
    match env
    case Mapping(members) => Some(Obj(members))
    case Items(items) => Some(List(Texts(items)))
    case Nothing => None
  }

  function EnvDict(env: Env): Dict {
    match env
    case Mapping(members) => members
    case Items(items) => EnvFromList(Texts(items))
    case Nothing => []
  }

  /** Every variable comes out as it was, but for the two that name the preview. */
  lemma EnvironmentComesOut(repr: Json -> string, to: Target, names: set<string>, svc: Dict, env: Env)
    requires Rewritten(repr, to, names, svc).Some? && Get(svc, "environment") == EnvValue(env)
    ensures var out := Get(Rewritten(repr, to, names, svc).value, "environment");
            && out.Some? && out.value.Obj?
            && forall key :: Get(out.value.members, key) ==
                               if key == "APP_NAME" then Some(Str(to.project)) else if key == "PREVIEW" then Some(Str("1"))
                               else Get(EnvDict(env), key)
  {
    var kept := WithImage(repr, to, Keep(svc, ALLOWED_KEYS));
    var full := NewEnv(to, Get(svc, "environment")).value;
    KeepKeeps(svc, ALLOWED_KEYS);
    WithImageGets(repr, to, Keep(svc, ALLOWED_KEYS));
    WithPlatformGets(kept, full);
    DependsElsewhere(repr, to, names, svc, "environment");
    NewEnvOf(to, env);
    forall key
      ensures Get(full, key) == if key == "APP_NAME" then Some(Str(to.project)) else if key == "PREVIEW" then Some(Str("1"))
                                else Get(EnvDict(env), key)
    {
      GetPut(Put(EnvDict(env), "APP_NAME", Str(to.project)), "PREVIEW", Str("1"), key);
      GetPut(EnvDict(env), "APP_NAME", Str(to.project), key);
    }
  }

  lemma NewEnvOf(to: Target, env: Env)
    ensures NewEnv(to, EnvValue(env)) == Some(Put(Put(EnvDict(env), "APP_NAME", Str(to.project)), "PREVIEW", Str("1")))
  {
    if env.Items? && env.items == [] {
      assert Texts(env.items) == [];
    }
  }

  // --- Dependencies ---

  lemma {:induction false} KeepNamesTogether(a: seq<Json>, b: seq<Json>, names: set<string>)
    ensures KeepNames(a + b, names) == KeepNames(a, names) + KeepNames(b, names)
    decreases |a|
  {
    if a == [] {
      assert a + b == b;
    } else {
      assert (a + b)[1..] == a[1..] + b;
      KeepNamesTogether(a[1..], b, names);
    }
  }

  lemma KeepNamesOfOne(v: Json, names: set<string>)
    ensures KeepNames([v], names) == if v.Str? && v.s in names then [v] else []
  {
    assert [v][1..] == [];
  }

  /** A list of dependencies keeps its services of the file, in their order, a mapping their entries. */
  lemma DependsComesOut(repr: Json -> string, to: Target, names: set<string>, svc: Dict)
    requires Rewritten(repr, to, names, svc).Some?
    ensures var depends, out := Get(svc, "depends_on"), Get(Rewritten(repr, to, names, svc).value, "depends_on");
            && (depends.None? ==> out == None)
            && (depends.Some? && depends.value.List? ==> out == Some(List(KeepNames(depends.value.items, names))))
            && (depends.Some? && depends.value.Obj? ==> out == Some(Obj(Keep(depends.value.members, names))))
            && (depends.Some? && !depends.value.List? && !depends.value.Obj? ==> out == depends)
  {
    var kept := Keep(svc, ALLOWED_KEYS);
    var env := NewEnv(to, Get(svc, "environment")).value;
    KeepKeeps(svc, ALLOWED_KEYS);
    WithImageGets(repr, to, kept);
    WithPlatformGets(WithImage(repr, to, kept), env);
    GetKeep(svc, "depends_on", ALLOWED_KEYS);
    var d := WithPlatform(WithImage(repr, to, kept), env);
    if Get(svc, "depends_on").Some? {
      GetPut(d, "depends_on", NewDepends(names, Get(svc, "depends_on").value).value, "depends_on");
    }
  }

  lemma {:induction false} EnvFails(to: Target, env: Option<Json>)
    ensures NewEnv(to, env) == None <==>
            env.Some? && env.value.Truthy() && !env.value.Obj?
            && !(env.value.List? && forall v :: v in env.value.items ==> v.Str?)
  {
  }

  lemma DependsFail(names: set<string>, depends: Json)
    ensures NewDepends(names, depends) == None <==> depends.List? && exists v :: v in depends.items && (v.List? || v.Obj?)
  {
  }

  /** A service cannot be rewritten exactly if its environment is neither a mapping nor a list of texts nor
      falsy, or its list of dependencies holds a list or a mapping. */
  lemma {:induction false} FailsExactly(repr: Json -> string, to: Target, names: set<string>, svc: Dict)
    ensures var env, depends := Get(svc, "environment"), Get(svc, "depends_on");
            Rewritten(repr, to, names, svc) == None <==>
              || (env.Some? && env.value.Truthy() && !env.value.Obj?
                  && !(env.value.List? && forall v :: v in env.value.items ==> v.Str?))
              || (depends.Some? && depends.value.List? && exists v :: v in depends.value.items && (v.List? || v.Obj?))
  {
    EnvFails(to, Get(svc, "environment"));
    if Get(svc, "depends_on").Some? {
      DependsFail(names, Get(svc, "depends_on").value);
    }
  }

  // --- Labels ---

  /** A mapping of labels says what the texts key=value would say. */
  lemma MappingOfLabels(repr: Json -> string, members: Dict)
    ensures var texts := LabelTexts(repr, Some(Obj(members)));
            && texts.Some? && |texts.value| == |members|
            && forall i :: 0 <= i < |members| ==> texts.value[i] == members[i].key + "=" + PyStr(repr, members[i].value)
  {
  }

  /** Labels ask for routing exactly if one of them, or one entry, is traefik.enable=true. */
  lemma MappingEnables(repr: Json -> string, members: Dict)
    ensures Enabled(LabelTexts(repr, Some(Obj(members))).value) <==>
            exists m :: m in members && m.key + "=" + PyStr(repr, m.value) == "traefik.enable=true"
  {
    var texts := LabelTexts(repr, Some(Obj(members))).value;
    MappingOfLabels(repr, members);
    if Enabled(texts) {
      var i :| 0 <= i < |texts| && texts[i] == "traefik.enable=true";
      assert members[i] in members;
    }
    forall m | m in members && m.key + "=" + PyStr(repr, m.value) == "traefik.enable=true" ensures Enabled(texts) {
      var i :| 0 <= i < |members| && members[i] == m;
      assert texts[i] == "traefik.enable=true";
    }
  }

  /** The port is that of the last label that names one. */
  lemma {:induction false} LastLabelNamesPort(labels: seq<string>, i: nat, port: string)
    requires i < |labels| && LabelPort(labels[i]) == Some(port)
    requires forall j :: i < j < |labels| ==> LabelPort(labels[j]) == None
    ensures LastPort(labels) == Some(port)
  {
    var n := |labels| - 1;
    if i < n {
      LastLabelNamesPort(labels[..n], i, port);
    }
  }

  lemma {:induction false} NoLabelNamesPort(labels: seq<string>)
    requires forall j :: 0 <= j < |labels| ==> LabelPort(labels[j]) == None
    ensures LastPort(labels) == None
  {
    if labels == [] {
    } else {
      NoLabelNamesPort(labels[..|labels| - 1]);
    }
  }

  /** A list of texts is read as it is. What else holds no labels, or a text, asks for nothing; what is
      left, as a list that holds something else, is an error. */
  lemma OtherLabels(repr: Json -> string, labels: Json)
    ensures labels.List? && (forall v :: v in labels.items ==> v.Str?) ==>
              LabelTexts(repr, Some(labels)).Some? && Texts(LabelTexts(repr, Some(labels)).value) == labels.items
    ensures !labels.Truthy() ==> LabelTexts(repr, Some(labels)) == Some([])
    ensures labels.Str? ==> LabelTexts(repr, Some(labels)).Some? && !Enabled(LabelTexts(repr, Some(labels)).value)
    ensures LabelTexts(repr, Some(labels)) == None <==>
            (labels.Bool? || labels.Int? || labels.Real? || (labels.List? && exists v :: v in labels.items && !v.Str?))
            && labels.Truthy()
  {
    if labels.Str? && labels.s != "" {
      assert forall text :: text in LabelTexts(repr, Some(labels)).value ==> |text| == 1;
    }
  }

  /** The labels of the routed service: its host, TLS, the login in front of it, and its port. */
  lemma RouterLabelsSay(to: Target, port: string)
    ensures var host, router := to.project + ".preview.billandjessie.com", "traefik.http.routers." + to.project;
            RouterLabels(to, port) == [
              "traefik.enable=true",
              "traefik.docker.network=preview",
              router + ".rule=Host(`" + host + "`)",
              router + ".entrypoints=websecure",
              router + ".tls.certresolver=route53",
              router + ".tls.domains[0].main=*.preview.billandjessie.com",
              router + ".middlewares=hsts@docker,authentik-forward-auth@docker",
              "traefik.http.services." + to.project + ".loadbalancer.server.port=" + port]
  {
  }

  lemma TargetExample(image: string)
    ensures TargetOf(Args("todo", "7", image, true)) == TargetOf(Args("todo", "7", image, false)) == Target("todo-pr7", image)
  {
  }

  // --- The fragment ---

  /** Labels apart, the services come out in their order, each rewritten for itself. */
  lemma ServiceComesOut(repr: Json -> string, a: Args, services: seq<Service>, i: nat)
    requires UniqueNames(services) && Preview(repr, a, services).Written? && i < |services|
    ensures var done := Preview(repr, a, services).services;
            && |done| == |services| && done[i].name == services[i].name
            && Rewritten(repr, TargetOf(a), Names(services), services[i].settings).Some?
            && forall key :: key != "labels" ==>
                 Get(done[i].settings, key) == Get(Rewritten(repr, TargetOf(a), Names(services), services[i].settings).value, key)
  {
    var r, bases := OutcomeParts(repr, a, services);
    var done := Preview(repr, a, services);
    var labels := Strings(RouterLabels(TargetOf(a), done.port));
    assert IsBase(repr, TargetOf(a), Names(services), services[i], bases[i]);
    assert done.services[i] == LabelledIf(bases[i], i == r, labels);
    forall key | key != "labels" ensures Get(done.services[i].settings, key) == Get(bases[i].settings, key) {
      GetPut(bases[i].settings, "labels", labels, key);
    }
  }

  /** In an accepted fragment the app's images, and only they, are replaced by the pull request's. */
  lemma AppImagesAreReplaced(repr: Json -> string, a: Args, services: seq<Service>, i: nat)
    requires UniqueNames(services) && Preview(repr, a, services).Written? && i < |services|
    ensures |Preview(repr, a, services).services| == |services|
    ensures var image := Get(services[i].settings, "image");
            Get(Preview(repr, a, services).services[i].settings, "image") ==
            if IsApps(ImageText(repr, image), a.image) then Some(Str(a.image)) else image
  {
    ServiceComesOut(repr, a, services, i);
    ImageComesOut(repr, TargetOf(a), Names(services), services[i].settings);
  }

  /** The keys reported are those of settings that are neither allowed nor dropped silently, service by service. */
  lemma {:induction false} ReportedExactly(all: seq<Inspected>, k: nat, name: string, keys: set<string>)
    requires k <= |all| && Loop(all, k).Going?
    ensures (name, keys) in Loop(all, k).progress.dropped <==>
            keys != {} && exists i :: 0 <= i < k && all[i].name == name && all[i].extra == keys
  {
    if k == 0 {
    } else {
      ReportedExactly(all, k - 1, name, keys);
    }
  }

  lemma DroppedExactly(repr: Json -> string, a: Args, services: seq<Service>, name: string, keys: set<string>)
    requires Preview(repr, a, services).Written?
    ensures (name, keys) in Preview(repr, a, services).dropped <==>
            keys != {}
            && exists i :: 0 <= i < |services| && services[i].name == name && keys == ReportedKeys(services[i].settings)
  {
    var all := InspectAll(repr, TargetOf(a), services);
    assert forall i :: 0 <= i < |services| ==> all[i] == Inspect(repr, TargetOf(a), Names(services), services[i]);
    forall i | 0 <= i < |services| ensures all[i].extra == ReportedKeys(services[i].settings) {
      ReportedIsExtra(services[i].settings);
    }
    ReportedExactly(all, |all|, name, keys);
  }

  ghost function ReportedKeys(svc: Dict): set<string> {
    set m | m in svc
            && m.key !in KEPT && m.key !in REPLACED
            && m.key !in {"container_name", "ports", "privileged", "volumes", "devices", "cap_add"} :: m.key
  }

  lemma ReportedIsExtra(svc: Dict)
    ensures KeysOf(svc) - ALLOWED_KEYS - SILENTLY_DROPPED == ReportedKeys(svc)
  {
    AllowedKeys();
  }

  // --- Why a fragment is refused ---

  /** What the service's labels and settings say that the reason names. */
  ghost predicate Justifies(all: seq<Inspected>, i: nat, reason: Reason)
    requires i < |all|
  {
    match reason
    case TwoRouted => all[i].IsRouted() && exists j :: 0 <= j < i && all[j].IsRouted()
    case NoPort(name) => all[i].name == name && all[i].IsRouted() && !all[i].HasPort()
    case TypeError(name) => all[i].name == name && !all[i].IsWellTyped()
    case _ => false
  }

  /** The loop stops at the first service it cannot process, for a reason that service gives. */
  lemma {:induction false} StopIsJustified(all: seq<Inspected>, k: nat) returns (i: nat)
    requires k <= |all| && Loop(all, k).Stopped?
    ensures i < k && Justifies(all, i, Loop(all, k).reason) && Loop(all, i).Going?
  {
    if Loop(all, k - 1).Stopped? {
      i := StopIsJustified(all, k - 1);
    } else {
      i := k - 1;
      var r := LoopGoesOnlyWhenAcceptable(all, i);
      LoopAccepts(all, i, r);
    }
  }

  /** A refusal says what is wrong: bad arguments, an empty fragment, a service that cannot be processed,
      nothing routed, or, in strict mode only, a routed service that does not run the image. */
  lemma RefusalIsJustified(repr: Json -> string, a: Args, services: seq<Service>)
    requires UniqueNames(services) && Preview(repr, a, services).Exit?
    ensures var reason, all := Preview(repr, a, services).reason, InspectAll(repr, TargetOf(a), services);
            match reason
            case BadArgs => !GoodArgs(a)
            case NoServices => services == []
            case NothingRouted => forall i :: 0 <= i < |all| ==> !all[i].IsRouted()
            case WrongImage(name) =>
              a.strict && exists r: nat :: r < |all| && all[r].name == name && all[r].IsRouted()
                                           && !RunsImage(repr, TargetOf(a), services, r)
            case _ => exists i: nat :: i < |all| && Justifies(all, i, reason)
  {
    if GoodArgs(a) && services != [] {
      var all := InspectAll(repr, TargetOf(a), services);
      if Loop(all, |all|).Stopped? {
        var i := StopIsJustified(all, |all|);
      } else {
        var r := LoopGoesOnlyWhenAcceptable(all, |all|);
        LoopAccepts(all, |all|, r);
        if r < |all| {
          PreviewableIsWritten(repr, a, services, r);
          var bases, port, dropped := PreviewableOutcome(repr, a, services, r);
          BaseRunsImage(repr, TargetOf(a), services, r, bases);
          assert all[r].name == services[r].name;
        }
      }
    }
  }

  lemma BadArgsExactly(repr: Json -> string, a: Args, services: seq<Service>)
    ensures Preview(repr, a, services) == Exit(BadArgs) <==>
            || a.app == "" || (exists c :: c in a.app && !('a' <= c <= 'z' || '0' <= c <= '9' || c == '-'))
            || a.pr == "" || (exists c :: c in a.pr && !('0' <= c <= '9'))
  {
    if GoodArgs(a) && services != [] && Loop(InspectAll(repr, TargetOf(a), services), |services|).Stopped? {
      var i := StopIsJustified(InspectAll(repr, TargetOf(a), services), |services|);
    }
  }
}

/** What the preview rewrite promises: confinement, and that running it on its own output changes nothing. */
module PreviewComposeProofs {
  import opened Text
  import opened JsonValues
  import opened PreviewCompose

  // --- The label printer and the label parser agree ---

  lemma ParsedPort(head: string, name: string, tail: string, port: string)
    requires name != "" && '.' !in name && IsPort(port) && tail != "" && tail[0] == '.'
    ensures PortBetween(head + name + tail + port, head, tail) == Some(port)
  {
    var text := head + name + tail + port;
    var rest := text[|head|..];
    assert rest == name + ['.'] + (tail[1..] + port);
    FindAfter(name, '.', tail[1..] + port);
    assert rest[|name|..] == tail + port;
    assert rest[|name| + |tail|..] == port;
  }

  lemma PortBetweenDecides(text: string, head: string, tail: string, port: string)
    requires tail != "" && tail[0] == '.'
    ensures PortBetween(text, head, tail) == Some(port) <==>
              IsPort(port) && exists name :: name != "" && '.' !in name && text == head + name + tail + port
  {
    if PortBetween(text, head, tail) == Some(port) {
      var rest := text[|head|..];
      var dot := Find(rest, '.');
      assert rest[dot..] == tail + port;
      assert text == head + rest[..dot] + tail + port;
    }
    if IsPort(port) {
      forall name | name != "" && '.' !in name && text == head + name + tail + port
        ensures PortBetween(text, head, tail) == Some(port)
      {
        ParsedPort(head, name, tail, port);
      }
    }
  }

  /** LabelPort decides the regular expression: it matches exactly the texts of that form. */
  lemma LabelPortDecides(text: string, port: string)
    ensures LabelPort(text) == Some(port) <==>
              port != "" && (forall c :: c in port ==> '0' <= c <= '9')
              && exists name :: name != "" && '.' !in name && text == PORT_HEAD + name + PORT_TAIL + port
  {
    PortBetweenDecides(text, PORT_HEAD, PORT_TAIL, port);
  }

  lemma ProjectHasNoDot(a: Args)
    requires GoodArgs(a)
    ensures TargetOf(a).project != "" && '.' !in TargetOf(a).project
  {
    forall c | c in TargetOf(a).project ensures c != '.' {
      assert c in a.app || c in "-pr" || c in a.pr;
    }
  }

  lemma StringsAreTexts(repr: Json -> string, texts: seq<string>)
    ensures LabelTexts(repr, Some(Strings(texts))) == Some(texts)
  {
    var items := Strings(texts).items;
    if texts != [] {
      assert LabelTexts(repr, Some(List(items))).value == texts;
    }
  }

  /** The labels the rewrite prints are read back as enabled, with the same port. */
  lemma RouterLabelsParse(repr: Json -> string, to: Target, port: string)
    requires to.project != "" && '.' !in to.project && IsPort(port)
    ensures var labels := RouterLabels(to, port);
            && LabelTexts(repr, Some(Strings(labels))) == Some(labels)
            && Enabled(labels) && LastPort(labels) == Some(port)
  {
    var labels := RouterLabels(to, port);
    ParsedPort(PORT_HEAD, to.project, PORT_TAIL, port);
    assert labels[7] == PORT_HEAD + to.project + PORT_TAIL + port;
    assert labels[0] == ENABLE;
    StringsAreTexts(repr, labels);
  }

  lemma {:induction false} LastPortIsPort(labels: seq<string>)
    ensures LastPort(labels).Some? ==> IsPort(LastPort(labels).value)
  {
    if labels != [] && LabelPort(labels[|labels| - 1]).None? {
      LastPortIsPort(labels[..|labels| - 1]);
    }
  }

  // --- One service ---

  lemma {:induction false} PutAllOther(d: Dict, members: seq<Member>, key: string)
    requires forall m :: m in members ==> m.key != key
    ensures Get(PutAll(d, members), key) == Get(d, key)
    decreases |members|
  {
    if members == [] {
    } else {
      GetPut(d, members[0].key, members[0].value, key);
      PutAllOther(Put(d, members[0].key, members[0].value), members[1..], key);
    }
  }

  lemma {:induction false} PutAllGets(d: Dict, members: seq<Member>)
    requires forall i, j :: 0 <= i < j < |members| ==> members[i].key != members[j].key
    ensures forall m :: m in members ==> Get(PutAll(d, members), m.key) == Some(m.value)
    decreases |members|
  {
    if members == [] {
    } else {
      var first := members[0];
      var d' := Put(d, first.key, first.value);
      PutAllGets(d', members[1..]);
      GetPut(d, first.key, first.value, first.key);
      PutAllOther(d', members[1..], first.key);
      assert members == [first] + members[1..];
    }
  }

  lemma {:induction false} PutAllSame(d: Dict, members: seq<Member>)
    requires forall m :: m in members ==> Get(d, m.key) == Some(m.value)
    ensures PutAll(d, members) == d
    decreases |members|
  {
    if members == [] {
    } else {
      assert members[0] in members;
      PutSame(d, members[0].key, members[0].value);
      PutAllSame(d, members[1..]);
    }
  }

  lemma {:induction false} PutAllMembers(d: Dict, members: seq<Member>)
    ensures forall m :: m in PutAll(d, members) ==> m in d || m in members
    decreases |members|
  {
    if members == [] {
    } else {
      PutMembers(d, members[0].key, members[0].value);
      PutAllMembers(Put(d, members[0].key, members[0].value), members[1..]);
    }
  }

  /** Members of `d` have allowed keys. */
  ghost predicate OnlyAllowed(d: Dict) {
    forall m :: m in d ==> m.key in ALLOWED_KEYS
  }

  lemma PutAllowed(d: Dict, key: string, value: Json)
    requires OnlyAllowed(d) && key in ALLOWED_KEYS
    ensures OnlyAllowed(Put(d, key, value))
  {
    PutMembers(d, key, value);
  }

  /** A dependency list or map names only services of the file. */
  ghost predicate DependsWithin(names: set<string>, depends: Json) {
    match depends
    case Obj(members) => forall m :: m in members ==> m.key in names
    case List(items) => forall v :: v in items ==> v.Str? && v.s in names
    case _ => true
  }

  lemma {:induction false} KeepNamesWithin(items: seq<Json>, names: set<string>)
    ensures forall v :: v in KeepNames(items, names) ==> v in items && v.Str? && v.s in names
    ensures (forall v :: v in items ==> v.Str? && v.s in names) ==> KeepNames(items, names) == items
    decreases |items|
  {
    if items == [] {
    } else {
      KeepNamesWithin(items[1..], names);
      assert items == [items[0]] + items[1..];
    }
  }

  lemma NewDependsWithin(names: set<string>, depends: Json)
    ensures NewDepends(names, depends).Some? ==> DependsWithin(names, NewDepends(names, depends).value)
    ensures DependsWithin(names, depends) ==> NewDepends(names, depends) == Some(depends)
  {
    if depends.Obj? {
      KeepKeeps(depends.members, names);
    } else if depends.List? {
      KeepNamesWithin(depends.items, names);
    }
  }

  /** The environment a preview service runs with. */
  ghost predicate PreviewEnv(to: Target, env: Option<Json>) {
    && env.Some? && env.value.Obj?
    && Get(env.value.members, "APP_NAME") == Some(Str(to.project))
    && Get(env.value.members, "PREVIEW") == Some(Str("1"))
  }

  /** What the rewrite makes of every service, labels aside. */
  ghost predicate Confined(repr: Json -> string, to: Target, names: set<string>, svc: Dict) {
    && OnlyAllowed(svc)
    && (forall m :: m in PLATFORM ==> Get(svc, m.key) == Some(m.value))
    && PreviewEnv(to, Get(svc, "environment"))
    && (IsOwnImage(repr, to, Get(svc, "image")) ==> Get(svc, "image") == Some(Str(to.image)))
    && (Get(svc, "depends_on").Some? ==> DependsWithin(names, Get(svc, "depends_on").value))
  }

  lemma NewEnvIsPreview(to: Target, env: Option<Json>)
    ensures NewEnv(to, env).Some? ==> PreviewEnv(to, Some(Obj(NewEnv(to, env).value)))
    ensures PreviewEnv(to, env) ==> NewEnv(to, env) == Some(env.value.members)
  {
    if NewEnv(to, env).Some? {
      var base: Dict :| NewEnv(to, env).value == Put(Put(base, "APP_NAME", Str(to.project)), "PREVIEW", Str("1"));
      GetPut(base, "APP_NAME", Str(to.project), "APP_NAME");
      GetPut(Put(base, "APP_NAME", Str(to.project)), "PREVIEW", Str("1"), "APP_NAME");
      GetPut(Put(base, "APP_NAME", Str(to.project)), "PREVIEW", Str("1"), "PREVIEW");
    }
    if PreviewEnv(to, env) {
      PutSame(env.value.members, "APP_NAME", Str(to.project));
      PutSame(env.value.members, "PREVIEW", Str("1"));
    }
  }

  lemma PlatformKeys()
    ensures forall i, j :: 0 <= i < j < |PLATFORM| ==> PLATFORM[i].key != PLATFORM[j].key
    ensures forall m :: m in PLATFORM ==>
              m.key in ALLOWED_KEYS && m.key !in {"environment", "image", "depends_on", "labels"}
  {
  }

  lemma PutElsewhere(repr: Json -> string, to: Target, names: set<string>, svc: Dict, value: Json)
    ensures Confined(repr, to, names, svc) ==> Confined(repr, to, names, Put(svc, "labels", value))
  {
    if Confined(repr, to, names, svc) {
      PlatformKeys();
      PutAllowed(svc, "labels", value);
      forall k | k != "labels" ensures Get(Put(svc, "labels", value), k) == Get(svc, k) {
        GetPut(svc, "labels", value, k);
      }
    }
  }

  lemma WithPlatformGets(d: Dict, env: Dict)
    requires OnlyAllowed(d)
    ensures var t := WithPlatform(d, env);
            && OnlyAllowed(t)
            && (forall m :: m in PLATFORM ==> Get(t, m.key) == Some(m.value))
            && Get(t, "environment") == Some(Obj(env)) && Get(t, "labels") == Some(NO_LABELS)
            && Get(t, "image") == Get(d, "image") && Get(t, "depends_on") == Get(d, "depends_on")
  {
    PlatformKeys();
    var d1 := Put(d, "environment", Obj(env));
    var d2 := PutAll(d1, PLATFORM);
    PutAllowed(d, "environment", Obj(env));
    PutAllMembers(d1, PLATFORM);
    PutAllowed(d2, "labels", NO_LABELS);
    PutAllGets(d1, PLATFORM);
    forall k ensures Get(d1, k) == if k == "environment" then Some(Obj(env)) else Get(d, k) {
      GetPut(d, "environment", Obj(env), k);
    }
    forall k ensures Get(WithPlatform(d, env), k) == if k == "labels" then Some(NO_LABELS) else Get(d2, k) {
      GetPut(d2, "labels", NO_LABELS, k);
    }
    PutAllOther(d1, PLATFORM, "environment");
    PutAllOther(d1, PLATFORM, "image");
    PutAllOther(d1, PLATFORM, "depends_on");
  }

  lemma WithImageGets(repr: Json -> string, to: Target, d: Dict)
    requires OnlyAllowed(d)
    ensures var t := WithImage(repr, to, d);
            && OnlyAllowed(t) && Get(t, "depends_on") == Get(d, "depends_on")
            && (IsOwnImage(repr, to, Get(t, "image")) ==> Get(t, "image") == Some(Str(to.image)))
  {
    PutAllowed(d, "image", Str(to.image));
    GetPut(d, "image", Str(to.image), "image");
    GetPut(d, "image", Str(to.image), "depends_on");
  }

  /** Whatever the fragment says about a service, the rewritten one is confined and has no labels. */
  lemma RewrittenIsConfined(repr: Json -> string, to: Target, names: set<string>, svc: Dict)
    ensures var t := Rewritten(repr, to, names, svc);
            t.Some? ==> Confined(repr, to, names, t.value) && Get(t.value, "labels") == Some(NO_LABELS)
  {
    if Rewritten(repr, to, names, svc).Some? {
      var kept := Keep(svc, ALLOWED_KEYS);
      KeepKeeps(svc, ALLOWED_KEYS);
      WithImageGets(repr, to, kept);
      var env := NewEnv(to, Get(svc, "environment"));
      NewEnvIsPreview(to, Get(svc, "environment"));
      var d := WithPlatform(WithImage(repr, to, kept), env.value);
      WithPlatformGets(WithImage(repr, to, kept), env.value);
      GetKeep(svc, "depends_on", ALLOWED_KEYS);
      if Get(svc, "depends_on").Some? {
        var v := NewDepends(names, Get(svc, "depends_on").value).value;
        NewDependsWithin(names, Get(svc, "depends_on").value);
        PutDepends(repr, to, names, d, v);
      }
    }
  }

  lemma PutDepends(repr: Json -> string, to: Target, names: set<string>, d: Dict, v: Json)
    requires OnlyAllowed(d) && DependsWithin(names, v)
    requires forall m :: m in PLATFORM ==> Get(d, m.key) == Some(m.value)
    requires PreviewEnv(to, Get(d, "environment")) && Get(d, "labels") == Some(NO_LABELS)
    requires IsOwnImage(repr, to, Get(d, "image")) ==> Get(d, "image") == Some(Str(to.image))
    ensures Confined(repr, to, names, Put(d, "depends_on", v))
    ensures Get(Put(d, "depends_on", v), "labels") == Some(NO_LABELS)
  {
    PlatformKeys();
    PutAllowed(d, "depends_on", v);
    forall k ensures Get(Put(d, "depends_on", v), k) == if k == "depends_on" then Some(v) else Get(d, k) {
      GetPut(d, "depends_on", v, k);
    }
  }

  /** A confined service is left as it is, except that its labels go. */
  lemma ConfinedIsKept(repr: Json -> string, to: Target, names: set<string>, svc: Dict)
    ensures Confined(repr, to, names, svc) ==>
              Rewritten(repr, to, names, svc) == Some(Put(svc, "labels", NO_LABELS))
  {
    if Confined(repr, to, names, svc) {
      KeepKeeps(svc, ALLOWED_KEYS);
      var env := Get(svc, "environment");
      NewEnvIsPreview(to, env);
      PutSame(svc, "environment", env.value);
      PutAllSame(svc, PLATFORM);
      if IsOwnImage(repr, to, Get(svc, "image")) {
        PutSame(svc, "image", Str(to.image));
      }
      if Get(svc, "depends_on").Some? {
        var v := Get(svc, "depends_on").value;
        NewDependsWithin(names, v);
        GetPut(svc, "labels", NO_LABELS, "depends_on");
        PutSame(Put(svc, "labels", NO_LABELS), "depends_on", v);
      }
    }
  }

  // --- The loop ---

  /** The first `k` services can all be processed, and none but the one at `r`, which has a port, is routed. */
  ghost predicate Acceptable(all: seq<Inspected>, k: nat, r: nat)
    requires k <= |all|
  {
    && (forall i :: 0 <= i < k ==> all[i].IsWellTyped())
    && (forall i :: 0 <= i < k && i != r ==> !all[i].IsRouted())
    && (r < k ==> all[r].IsRouted() && all[r].HasPort())
  }

  ghost function Routed(all: seq<Inspected>, k: nat, r: nat): Option<(string, string)>
    requires k <= |all| && Acceptable(all, k, r)
  {
    if r < k then Some((all[r].name, all[r].labels.value.1.value)) else None
  }

  ghost predicate Rewrites(all: seq<Inspected>, out: seq<Service>)
    requires |out| <= |all|
  {
    forall i :: 0 <= i < |out| ==> out[i].name == all[i].name && all[i].rewritten == Some(out[i].settings)
  }

  /** The loop gets through exactly the acceptable services, and then holds their rewritten forms. */
  lemma {:induction false} LoopAccepts(all: seq<Inspected>, k: nat, r: nat)
    requires k <= |all| && Acceptable(all, k, r)
    ensures Loop(all, k).Going?
    ensures var p := Loop(all, k).progress;
            p.routed == Routed(all, k, r) && |p.services| == k && Rewrites(all, p.services)
    ensures (forall i :: 0 <= i < k ==> all[i].extra == {}) ==> Loop(all, k).progress.dropped == []
  {
    if k == 0 {
    } else {
      LoopAccepts(all, k - 1, r);
    }
  }

  lemma {:induction false} LoopGoesOnlyWhenAcceptable(all: seq<Inspected>, k: nat) returns (r: nat)
    requires k <= |all| && Loop(all, k).Going?
    ensures Acceptable(all, k, r) && (r < k || r >= |all|)
  {
    if k == 0 {
      r := |all|;
    } else {
      r := LoopGoesOnlyWhenAcceptable(all, k - 1);
      LoopAccepts(all, k - 1, r);
      if all[k - 1].IsRouted() {
        r := k - 1;
      }
    }
  }

  lemma {:induction false} ImageOfRouted(services: seq<Service>, r: nat)
    requires r < |services| && forall i :: 0 <= i < r ==> services[i].name != services[r].name
    ensures ImageOf(services, services[r].name) == Get(services[r].settings, "image")
  {
    if r == 0 {
    } else {
      assert services[0].name != services[r].name;
      ImageOfRouted(services[1..], r - 1);
    }
  }

  // --- The whole rewrite ---

  /** What it takes for a fragment to be accepted, apart from the image of the routed service. */
  ghost predicate IsPreviewable(repr: Json -> string, a: Args, services: seq<Service>, r: nat) {
    && GoodArgs(a) && r < |services|
    && Acceptable(InspectAll(repr, TargetOf(a), services), |services|, r)
  }

  ghost predicate RunsImage(repr: Json -> string, to: Target, services: seq<Service>, r: nat)
    requires r < |services|
  {
    var t := Rewritten(repr, to, Names(services), services[r].settings);
    t.Some? && Get(t.value, "image") == Some(Str(to.image))
  }

  /** The services rewritten, before the router labels. */
  ghost predicate Bases(repr: Json -> string, to: Target, services: seq<Service>, bases: seq<Service>) {
    && |bases| == |services|
    && forall i :: 0 <= i < |bases| ==> IsBase(repr, to, Names(services), services[i], bases[i])
  }

  ghost predicate IsBase(repr: Json -> string, to: Target, names: set<string>, s: Service, base: Service) {
    base.name == s.name && Rewritten(repr, to, names, s.settings) == Some(base.settings)
  }

  /** `out` is `bases` with the r-th service labelled. */
  ghost predicate Labelled(bases: seq<Service>, r: nat, labels: Json, out: seq<Service>) {
    && |out| == |bases|
    && forall i :: 0 <= i < |out| ==> out[i] == LabelledIf(bases[i], i == r, labels)
  }

  function LabelledIf(s: Service, routed: bool, labels: Json): Service {
    if routed then Service(s.name, Put(s.settings, "labels", labels)) else s
  }

  lemma SetLabelsLabels(bases: seq<Service>, r: nat, labels: Json)
    requires r < |bases| && UniqueNames(bases)
    ensures Labelled(bases, r, labels, SetLabels(bases, bases[r].name, labels))
  {
    forall i: nat | i < |bases| ensures SetLabels(bases, bases[r].name, labels)[i] == LabelledIf(bases[i], i == r, labels) {
      assert i != r ==> bases[i].name != bases[r].name;
    }
  }

  /** How a fragment comes out that is accepted but for the routed service's image. */
  lemma PreviewableOutcome(repr: Json -> string, a: Args, services: seq<Service>, r: nat)
    returns (bases: seq<Service>, port: string, dropped: seq<(string, set<string>)>)
    requires IsPreviewable(repr, a, services, r) && UniqueNames(services)
    ensures Bases(repr, TargetOf(a), services, bases)
    ensures InspectAll(repr, TargetOf(a), services)[r].labels == Some((true, Some(port)))
    ensures Preview(repr, a, services) == FinishAt(a, bases, r, port, dropped)
  {
    var all := InspectAll(repr, TargetOf(a), services);
    LoopAccepts(all, |all|, r);
    var p := Loop(all, |all|).progress;
    bases, port, dropped := p.services, p.routed.value.1, p.dropped;
    RewritesAreBases(repr, TargetOf(a), services, bases);
    BasesHaveUniqueNames(repr, TargetOf(a), services, bases);
    ImageOfRouted(bases, r);
  }

  lemma RewritesAreBases(repr: Json -> string, to: Target, services: seq<Service>, out: seq<Service>)
    requires |out| == |services| && Rewrites(InspectAll(repr, to, services), out)
    ensures Bases(repr, to, services, out)
  {
    forall i: nat | i < |services| ensures IsBase(repr, to, Names(services), services[i], out[i]) {
      assert InspectAll(repr, to, services)[i] == Inspect(repr, to, Names(services), services[i]);
    }
  }

  function FinishAt(a: Args, bases: seq<Service>, r: nat, port: string, dropped: seq<(string, set<string>)>): Outcome
    requires r < |bases|
  {
    var name := bases[r].name;
    if a.strict && Get(bases[r].settings, "image") != Some(Str(a.image)) then Exit(WrongImage(name))
    else Written(SetLabels(bases, name, Strings(RouterLabels(TargetOf(a), port))), name, port, dropped)
  }

  lemma BaseRunsImage(repr: Json -> string, to: Target, services: seq<Service>, r: nat, bases: seq<Service>)
    requires r < |services| && Bases(repr, to, services, bases)
    ensures RunsImage(repr, to, services, r) <==> Get(bases[r].settings, "image") == Some(Str(to.image))
    ensures bases[r].name == services[r].name
  {
    assert IsBase(repr, to, Names(services), services[r], bases[r]);
  }

  lemma PreviewableIsWritten(repr: Json -> string, a: Args, services: seq<Service>, r: nat)
    requires UniqueNames(services)
    ensures IsPreviewable(repr, a, services, r) ==>
              (Preview(repr, a, services).Written? <==> (a.strict ==> RunsImage(repr, TargetOf(a), services, r)))
  {
    if IsPreviewable(repr, a, services, r) {
      var bases, port, dropped := PreviewableOutcome(repr, a, services, r);
      BaseRunsImage(repr, TargetOf(a), services, r, bases);
    }
  }

  lemma WrittenIsPreviewable(repr: Json -> string, a: Args, services: seq<Service>) returns (r: nat)
    requires Preview(repr, a, services).Written?
    ensures IsPreviewable(repr, a, services, r)
  {
    var all := InspectAll(repr, TargetOf(a), services);
    r := LoopGoesOnlyWhenAcceptable(all, |all|);
    LoopAccepts(all, |all|, r);
  }

  /** A fragment is written exactly when every service can be processed, exactly one is routed, that one
      has a port and, in strict mode, runs the pull request's image. */
  lemma AcceptedExactly(repr: Json -> string, a: Args, services: seq<Service>)
    requires UniqueNames(services)
    ensures Preview(repr, a, services).Written? <==>
              exists r: nat :: IsPreviewable(repr, a, services, r) && (a.strict ==> RunsImage(repr, TargetOf(a), services, r))
  {
    if Preview(repr, a, services).Written? {
      var r := WrittenIsPreviewable(repr, a, services);
      PreviewableIsWritten(repr, a, services, r);
    }
    forall r: nat | IsPreviewable(repr, a, services, r) ensures
      Preview(repr, a, services).Written? <==> (a.strict ==> RunsImage(repr, TargetOf(a), services, r))
    {
      PreviewableIsWritten(repr, a, services, r);
    }
  }

  /** The parts of an accepted outcome. */
  lemma OutcomeParts(repr: Json -> string, a: Args, services: seq<Service>)
    returns (r: nat, bases: seq<Service>)
    requires UniqueNames(services) && Preview(repr, a, services).Written?
    ensures var done := Preview(repr, a, services);
            && GoodArgs(a) && IsPort(done.port) && r < |services| && done.routed == services[r].name
            && Bases(repr, TargetOf(a), services, bases)
            && Labelled(bases, r, Strings(RouterLabels(TargetOf(a), done.port)), done.services)
            && (a.strict ==> Get(bases[r].settings, "image") == Some(Str(a.image)))
  {
    r := WrittenIsPreviewable(repr, a, services);
    var port, dropped;
    bases, port, dropped := PreviewableOutcome(repr, a, services, r);
    InspectedPort(repr, TargetOf(a), services, r, port);
    BasesHaveUniqueNames(repr, TargetOf(a), services, bases);
    SetLabelsLabels(bases, r, Strings(RouterLabels(TargetOf(a), port)));
  }

  lemma InspectedPort(repr: Json -> string, to: Target, services: seq<Service>, r: nat, port: string)
    requires r < |services| && InspectAll(repr, to, services)[r].labels == Some((true, Some(port)))
    ensures IsPort(port)
  {
    LastPortIsPort(LabelTexts(repr, Get(services[r].settings, "labels")).value);
  }

  /** A service that came out is confined, and labelled only if it is the routed one. */
  lemma OutIsConfined(repr: Json -> string, to: Target, names: set<string>, s: Service, base: Service, routed: bool, labels: Json)
    requires IsBase(repr, to, names, s, base)
    ensures var out := LabelledIf(base, routed, labels);
            && Confined(repr, to, names, out.settings)
            && Get(out.settings, "labels") == Some(if routed then labels else NO_LABELS)
            && Get(out.settings, "image") == Get(base.settings, "image")
  {
    RewrittenIsConfined(repr, to, names, s.settings);
    PutElsewhere(repr, to, names, base.settings, labels);
    GetPut(base.settings, "labels", labels, "labels");
    GetPut(base.settings, "labels", labels, "image");
  }

  /** The services that are written are the fragment's, all confined, and only the r-th has router labels. */
  ghost predicate IsConfinedAt(repr: Json -> string, a: Args, services: seq<Service>, done: Outcome, r: nat) {
    && done.Written? && |done.services| == |services| && Names(done.services) == Names(services) && IsPort(done.port)
    && r < |done.services| && done.services[r].name == done.routed
    && (a.strict ==> Get(done.services[r].settings, "image") == Some(Str(a.image)))
    && forall i :: 0 <= i < |done.services| ==>
         ConfinedAndLabelled(repr, TargetOf(a), Names(services), done.services[i].settings, i == r, done.port)
  }

  /** Any accepted fragment is confined: only allowed settings, only the preview network, the platform's
      limits on every service, no dependency on a missing service, and router labels on one service only,
      which runs the pull request's image in strict mode. */
  lemma AcceptedIsConfined(repr: Json -> string, a: Args, services: seq<Service>)
    requires UniqueNames(services)
    ensures var done := Preview(repr, a, services);
            done.Written? ==> exists r :: IsConfinedAt(repr, a, services, done, r)
  {
    if Preview(repr, a, services).Written? {
      var r := WrittenIsConfined(repr, a, services);
    }
  }

  lemma WrittenIsConfined(repr: Json -> string, a: Args, services: seq<Service>) returns (r: nat)
    requires UniqueNames(services) && Preview(repr, a, services).Written?
    ensures IsConfinedAt(repr, a, services, Preview(repr, a, services), r)
  {
    var bases: seq<Service>;
    r, bases := OutcomeParts(repr, a, services);
    var done := Preview(repr, a, services);
    var to, names, labels := TargetOf(a), Names(services), Strings(RouterLabels(TargetOf(a), done.port));
    forall i: nat | i < |services|
      ensures done.services[i].name == services[i].name
      ensures ConfinedAndLabelled(repr, to, names, done.services[i].settings, i == r, done.port)
      ensures Get(done.services[i].settings, "image") == Get(bases[i].settings, "image")
    {
      assert IsBase(repr, to, names, services[i], bases[i]);
      OutIsConfined(repr, to, names, services[i], bases[i], i == r, labels);
      assert done.services[i] == LabelledIf(bases[i], i == r, labels);
    }
    SameNames(done.services, services);
  }

  ghost predicate ConfinedAndLabelled(repr: Json -> string, to: Target, names: set<string>, svc: Dict, routed: bool, port: string) {
    && Confined(repr, to, names, svc)
    && Get(svc, "labels") == Some(if routed then Strings(RouterLabels(to, port)) else NO_LABELS)
  }

  lemma SameNames(a: seq<Service>, b: seq<Service>)
    requires |a| == |b| && forall i :: 0 <= i < |a| ==> a[i].name == b[i].name
    ensures Names(a) == Names(b)
  {
    forall n | n in Names(a) ensures n in Names(b) {
      var i :| 0 <= i < |a| && a[i].name == n;
      assert b[i] in b;
    }
    forall n | n in Names(b) ensures n in Names(a) {
      var i :| 0 <= i < |b| && b[i].name == n;
      assert a[i] in a;
    }
  }

  // --- The second run ---

  function Reread(base: Service, routed: bool, port: string): Inspected {
    Inspected(base.name, Some((routed, if routed then Some(port) else None)), Some(base.settings), {})
  }

  /** A service that came out is read as it was meant, and rewritten to itself without labels. */
  lemma InspectOut(repr: Json -> string, to: Target, names: set<string>, s: Service, base: Service, routed: bool, port: string)
    requires to.project != "" && '.' !in to.project && IsPort(port)
    ensures IsBase(repr, to, names, s, base) ==>
              Inspect(repr, to, names, LabelledIf(base, routed, Strings(RouterLabels(to, port)))) == Reread(base, routed, port)
  {
    if IsBase(repr, to, names, s, base) {
      var labels := Strings(RouterLabels(to, port));
      var out := LabelledIf(base, routed, labels);
      OutIsConfined(repr, to, names, s, base, routed, labels);
      ReadLabels(repr, to, out.settings, routed, port);
      RewrittenAgain(repr, to, names, s, base, routed, labels);
      NothingDropped(out.settings);
    }
  }

  lemma ReadLabels(repr: Json -> string, to: Target, svc: Dict, routed: bool, port: string)
    requires to.project != "" && '.' !in to.project && IsPort(port)
    requires Get(svc, "labels") == Some(if routed then Strings(RouterLabels(to, port)) else NO_LABELS)
    ensures var labels := LabelTexts(repr, Get(svc, "labels"));
            && labels.Some? && Enabled(labels.value) == routed
            && LastPort(labels.value) == if routed then Some(port) else None
  {
    RouterLabelsParse(repr, to, port);
  }

  lemma RewrittenAgain(repr: Json -> string, to: Target, names: set<string>, s: Service, base: Service, routed: bool, labels: Json)
    requires IsBase(repr, to, names, s, base)
    ensures Rewritten(repr, to, names, LabelledIf(base, routed, labels).settings) == Some(base.settings)
  {
    RewrittenIsConfined(repr, to, names, s.settings);
    OutIsConfined(repr, to, names, s, base, routed, labels);
    ConfinedIsKept(repr, to, names, LabelledIf(base, routed, labels).settings);
    PutPut(base.settings, "labels", labels, NO_LABELS);
    PutSame(base.settings, "labels", NO_LABELS);
  }

  lemma NothingDropped(svc: Dict)
    requires OnlyAllowed(svc)
    ensures KeysOf(svc) - ALLOWED_KEYS - SILENTLY_DROPPED == {}
  {
  }

  lemma InspectAllOut(repr: Json -> string, to: Target, services: seq<Service>, bases: seq<Service>,
                                         r: nat, port: string, out: seq<Service>)
    requires to.project != "" && '.' !in to.project && IsPort(port)
    requires Bases(repr, to, services, bases) && Labelled(bases, r, Strings(RouterLabels(to, port)), out)
    ensures InspectAll(repr, to, out) == seq(|bases|, i requires 0 <= i < |bases| => Reread(bases[i], i == r, port))
  {
    var labels := Strings(RouterLabels(to, port));
    forall i: nat | i < |bases|
      ensures out[i].name == services[i].name
      ensures Inspect(repr, to, Names(services), out[i]) == Reread(bases[i], i == r, port)
    {
      assert IsBase(repr, to, Names(services), services[i], bases[i]);
      InspectOut(repr, to, Names(services), services[i], bases[i], i == r, port);
      assert out[i] == LabelledIf(bases[i], i == r, labels);
    }
    SameNames(out, services);
  }

  /** Read again, the services go through the loop unchanged, and the same one is routed. */
  lemma LoopAgain(bases: seq<Service>, r: nat, port: string, all: seq<Inspected>)
    requires r < |bases| && all == seq(|bases|, i requires 0 <= i < |bases| => Reread(bases[i], i == r, port))
    ensures Loop(all, |all|) == Going(Progress(Some((bases[r].name, port)), bases, []))
  {
    LoopAccepts(all, |all|, r);
    var out := Loop(all, |all|).progress.services;
    forall i: nat | i < |bases| ensures out[i] == bases[i] {
      assert all[i] == Reread(bases[i], i == r, port);
    }
  }

  lemma LabelledAgain(bases: seq<Service>, r: nat, labels: Json, out: seq<Service>)
    requires r < |bases| && UniqueNames(bases) && Labelled(bases, r, labels, out)
    ensures SetLabels(bases, bases[r].name, labels) == out
    ensures ImageOf(bases, bases[r].name) == ImageOf(out, bases[r].name)
  {
    SetLabelsLabels(bases, r, labels);
    assert out[r] == LabelledIf(bases[r], true, labels);
    forall i | 0 <= i < r ensures out[i].name != out[r].name {
      assert out[i] == LabelledIf(bases[i], false, labels);
    }
    ImageOfRouted(bases, r);
    ImageOfRouted(out, r);
    GetPut(bases[r].settings, "labels", labels, "image");
  }

  lemma BasesHaveUniqueNames(repr: Json -> string, to: Target, services: seq<Service>, bases: seq<Service>)
    requires UniqueNames(services) && Bases(repr, to, services, bases)
    ensures UniqueNames(bases)
    ensures forall i :: 0 <= i < |bases| ==> bases[i].name == services[i].name
  {
    forall i | 0 <= i < |bases| ensures bases[i].name == services[i].name {
      assert IsBase(repr, to, Names(services), services[i], bases[i]);
    }
  }

  /** Running the rewrite on its own output changes nothing and drops nothing; in strict mode it can
      only object that the routed service doesn't run the pull request's image. */
  lemma RewriteIsIdempotent(repr: Json -> string, a: Args, services: seq<Service>, again: Args)
    requires UniqueNames(services) && again == a.(strict := again.strict)
    ensures var done := Preview(repr, a, services);
            done.Written? ==>
              Preview(repr, again, done.services) ==
                if again.strict && ImageOf(done.services, done.routed) != Some(Str(a.image))
                then Exit(WrongImage(done.routed))
                else Written(done.services, done.routed, done.port, [])
  {
    if Preview(repr, a, services).Written? {
      var r, bases := OutcomeParts(repr, a, services);
      var done := Preview(repr, a, services);
      BasesHaveUniqueNames(repr, TargetOf(a), services, bases);
      ProjectHasNoDot(a);
      InspectAllOut(repr, TargetOf(a), services, bases, r, done.port, done.services);
      LoopAgain(bases, r, done.port, InspectAll(repr, TargetOf(a), done.services));
      LabelledAgain(bases, r, Strings(RouterLabels(TargetOf(a), done.port)), done.services);
      FinishAgain(repr, a, again, done, bases);
    }
  }

  lemma FinishAgain(repr: Json -> string, a: Args, again: Args, done: Outcome, bases: seq<Service>)
    requires again == a.(strict := again.strict) && GoodArgs(a) && done.Written? && done.services != []
    requires SetLabels(bases, done.routed, Strings(RouterLabels(TargetOf(a), done.port))) == done.services
    requires ImageOf(bases, done.routed) == ImageOf(done.services, done.routed)
    requires Loop(InspectAll(repr, TargetOf(a), done.services), |done.services|) ==
               Going(Progress(Some((done.routed, done.port)), bases, []))
    ensures Preview(repr, again, done.services) ==
              if again.strict && ImageOf(done.services, done.routed) != Some(Str(a.image))
              then Exit(WrongImage(done.routed))
              else Written(done.services, done.routed, done.port, [])
  {
    assert TargetOf(again) == TargetOf(a);
  }

  // --- There are fragments that are accepted ---

  function SimpleFragment(a: Args, name: string, port: string): seq<Service> {
    [Service(name, Settings(Str(a.image), Strings(RouterLabels(TargetOf(a), port))))]
  }

  function Settings(image: Json, labels: Json): Dict {
    [Member("image", image), Member("labels", labels)]
  }

  lemma SettingsGet(image: Json, labels: Json)
    ensures var svc := Settings(image, labels);
            && Get(svc, "image") == Some(image) && Get(svc, "labels") == Some(labels)
            && Get(svc, "environment") == None && Get(svc, "depends_on") == None
  {
    assert |"image"| == 5 && |"labels"| == 6 && |"environment"| == 11 && |"depends_on"| == 10;
    GetOfTwo(Member("image", image), Member("labels", labels), "image");
    GetOfTwo(Member("image", image), Member("labels", labels), "labels");
    GetOfTwo(Member("image", image), Member("labels", labels), "environment");
    GetOfTwo(Member("image", image), Member("labels", labels), "depends_on");
  }

  lemma GetOfTwo(a: Member, b: Member, key: string)
    ensures Get([a, b], key) == if key == a.key then Some(a.value) else if key == b.key then Some(b.value) else None
  {
    assert [a, b][1..] == [b] && [b][1..] == [];
    assert Get([b], key) == if key == b.key then Some(b.value) else Get([], key);
  }

  lemma WithImageKeeps(repr: Json -> string, to: Target, d: Dict)
    requires Get(d, "image") == Some(Str(to.image))
    ensures WithImage(repr, to, d) == d
  {
    PutSame(d, "image", Str(to.image));
  }

  lemma ImageIsKept(repr: Json -> string, to: Target, names: set<string>, svc: Dict)
    requires Get(svc, "image") == Some(Str(to.image))
    requires Get(svc, "environment") == None && Get(svc, "depends_on") == None
    ensures var t := Rewritten(repr, to, names, svc);
            t.Some? && Get(t.value, "image") == Some(Str(to.image))
  {
    var d := Keep(svc, ALLOWED_KEYS);
    KeepKeeps(svc, ALLOWED_KEYS);
    assert "image" in ALLOWED_KEYS;
    GetKeep(svc, "image", ALLOWED_KEYS);
    WithImageKeeps(repr, to, d);
    WithPlatformGets(d, NewEnv(to, None).value);
  }

  /** Whatever the application, the pull request and the image, strict or not: one service that runs the
      image and asks to be routed to a port is accepted. */
  lemma SimpleIsAccepted(repr: Json -> string, a: Args, name: string, port: string)
    requires GoodArgs(a) && IsPort(port)
    ensures UniqueNames(SimpleFragment(a, name, port))
    ensures Preview(repr, a, SimpleFragment(a, name, port)).Written?
  {
    var services, to := SimpleFragment(a, name, port), TargetOf(a);
    var labels := Strings(RouterLabels(to, port));
    ProjectHasNoDot(a);
    SettingsGet(Str(a.image), labels);
    ReadLabels(repr, to, services[0].settings, true, port);
    ImageIsKept(repr, to, Names(services), services[0].settings);
    OneIsAcceptable(InspectAll(repr, to, services));
    PreviewableIsWritten(repr, a, services, 0);
  }

  lemma OneIsAcceptable(all: seq<Inspected>)
    requires |all| == 1 && all[0].IsWellTyped() && all[0].IsRouted() && all[0].HasPort()
    ensures Acceptable(all, 1, 0)
  {
  }
}

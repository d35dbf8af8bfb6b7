/** The script itself, step by step, against the rewrite it computes. */
module PreviewComposeScript {
  import opened Text
  import opened JsonValues
  import opened PreviewCompose
  import opened PreviewComposeProofs

  method ScanLabels(labels: seq<string>) returns (enabled: bool, port: Option<string>)
    ensures enabled == Enabled(labels) && port == LastPort(labels)
  {
    enabled, port := false, None;
    for i := 0 to |labels|
      invariant enabled == Enabled(labels[..i]) && port == LastPort(labels[..i])
    {
      assert labels[..i + 1] == labels[..i] + [labels[i]];
      assert labels[..i + 1][..i] == labels[..i];
      if labels[i] == ENABLE {
        enabled := true;
      }
      var m := LabelPort(labels[i]);
      if m.Some? {
        port := m;
      }
    }
    assert labels[..|labels|] == labels;
  }

  /** What has to stay equal while keys come and go: the allowed settings and the reported keys. */
  ghost predicate Tracks(d: Dict, allowed: Dict, extra: set<string>) {
    Keep(d, ALLOWED_KEYS) == allowed && KeysOf(d) - ALLOWED_KEYS - SILENTLY_DROPPED == extra
  }

  method Discard(d: Dict, key: string, ghost allowed: Dict, ghost extra: set<string>) returns (r: Dict)
    requires Tracks(d, allowed, extra) && key in SILENTLY_DROPPED
    ensures Tracks(r, allowed, extra) && KeysOf(r) == KeysOf(d) - {key}
  {
    DroppedIsNotAllowed();
    KeepPop(d, key, ALLOWED_KEYS);
    KeysOfPop(d, key);
    r := Pop(d, key);
  }

  method Assign(d: Dict, key: string, value: Json, ghost allowed: Dict, ghost extra: set<string>) returns (r: Dict)
    requires Tracks(d, allowed, extra) && key in ALLOWED_KEYS
    ensures Tracks(r, Put(allowed, key, value), extra) && KeysOf(r) == KeysOf(d) + {key}
  {
    KeepPut(d, key, value, ALLOWED_KEYS);
    KeysOfPut(d, key, value);
    r := Put(d, key, value);
  }

  /** The settings assigned to every service, in the script's order. */
  method AssignPlatform(d0: Dict, ghost allowed: Dict, ghost extra: set<string>) returns (d: Dict)
    requires Tracks(d0, allowed, extra)
    ensures Tracks(d, PutAll(allowed, PLATFORM), extra)
    ensures forall k :: k in SILENTLY_DROPPED && k in KeysOf(d) ==> k in KeysOf(d0)
  {
    DroppedIsNotAllowed();
    d := d0;
    for i := 0 to |PLATFORM|
      invariant Tracks(d, PutAll(allowed, PLATFORM[..i]), extra)
      invariant forall k :: k in SILENTLY_DROPPED && k in KeysOf(d) ==> k in KeysOf(d0)
    {
      PutAllSnoc(allowed, PLATFORM, i);
      PlatformAllowed();
      d := Assign(d, PLATFORM[i].key, PLATFORM[i].value, PutAll(allowed, PLATFORM[..i]), extra);
    }
    assert PLATFORM[..|PLATFORM|] == PLATFORM;
  }

  lemma PlatformAllowed()
    ensures forall m :: m in PLATFORM ==> m.key in ALLOWED_KEYS
  {
  }

  lemma {:induction false} PutAllSnoc(d: Dict, members: seq<Member>, i: nat)
    requires i < |members|
    ensures PutAll(d, members[..i + 1]) == Put(PutAll(d, members[..i]), members[i].key, members[i].value)
    decreases i
  {
    if i == 0 {
    } else {
      PutAllSnoc(Put(d, members[0].key, members[0].value), members[1..], i - 1);
      assert members[..i + 1][1..] == members[1..][..i];
      assert members[..i][1..] == members[1..][..i - 1];
    }
  }

  /** Every setting that is not allowed is removed, and its key reported. */
  method DiscardExtra(d0: Dict) returns (d: Dict, extra: set<string>)
    ensures d == Keep(d0, ALLOWED_KEYS) && extra == KeysOf(d0) - ALLOWED_KEYS
  {
    d, extra := d0, KeysOf(d0) - ALLOWED_KEYS;
    var rest := extra;
    while rest != {}
      invariant rest == KeysOf(d) - ALLOWED_KEYS
      invariant Keep(d, ALLOWED_KEYS) == Keep(d0, ALLOWED_KEYS)
      decreases |rest|
    {
      var k :| k in rest;
      KeepPop(d, k, ALLOWED_KEYS);
      KeysOfPop(d, k);
      d, rest := Pop(d, k), rest - {k};
    }
    KeepKeeps(d, ALLOWED_KEYS);
    assert forall m :: m in d ==> m.key in KeysOf(d);
  }

  /** The loop body after the label scan. Its `pop`s of settings that are not allowed anyway change only the report. */
  method RewriteService(repr: Json -> string, to: Target, names: set<string>, settings: Dict)
    returns (rewritten: Option<Dict>, extra: set<string>)
    ensures rewritten == Rewritten(repr, to, names, settings)
    ensures rewritten.Some? ==> extra == KeysOf(settings) - ALLOWED_KEYS - SILENTLY_DROPPED
  {
    extra := {};
    ghost var kept := WithImage(repr, to, Keep(settings, ALLOWED_KEYS));
    KeptLeaves(repr, to, settings);
    var svc := AssignImage(repr, to, settings);
    GetKept(svc, kept);
    var env := NewEnv(to, Get(svc, "environment"));
    if env.None? {
      return None, extra;
    }
    svc, extra := AssignRest(svc, env.value, kept, KeysOf(settings) - ALLOWED_KEYS - SILENTLY_DROPPED);
    WithPlatformGets(kept, env.value);
    var depends := Get(svc, "depends_on");
    if depends.None? {
      return Some(svc), extra;
    }
    var v := NewDepends(names, depends.value);
    if v.None? {
      return None, extra;
    }
    rewritten := Some(Put(svc, "depends_on", v.value));
  }

  method AssignImage(repr: Json -> string, to: Target, settings: Dict) returns (svc: Dict)
    ensures Tracks(svc, WithImage(repr, to, Keep(settings, ALLOWED_KEYS)), KeysOf(settings) - ALLOWED_KEYS - SILENTLY_DROPPED)
    ensures "container_name" !in KeysOf(svc) && "ports" !in KeysOf(svc)
  {
    ghost var kept := Keep(settings, ALLOWED_KEYS);
    ghost var reported := KeysOf(settings) - ALLOWED_KEYS - SILENTLY_DROPPED;
    svc := Discard(settings, "container_name", kept, reported);
    svc := Discard(svc, "ports", kept, reported);
    GetKept(svc, kept);
    if IsOwnImage(repr, to, Get(svc, "image")) {
      svc := Assign(svc, "image", Str(to.image), kept, reported);
    }
  }

  method AssignRest(svc: Dict, env: Dict, ghost kept: Dict, ghost reported: set<string>) returns (r: Dict, extra: set<string>)
    requires Tracks(svc, kept, reported) && "container_name" !in KeysOf(svc) && "ports" !in KeysOf(svc)
    ensures r == WithPlatform(kept, env) && extra == reported
  {
    ghost var platform := PutAll(Put(kept, "environment", Obj(env)), PLATFORM);
    DroppedIsNotAllowed();
    r := Assign(svc, "environment", Obj(env), kept, reported);
    r := AssignPlatform(r, Put(kept, "environment", Obj(env)), reported);
    r := DiscardMore(r, platform, reported);
    r, extra := AssignLabels(r, platform, reported);
  }

  lemma DroppedIsNotAllowed()
    ensures SILENTLY_DROPPED !! ALLOWED_KEYS
    ensures "container_name" in SILENTLY_DROPPED && "ports" in SILENTLY_DROPPED && "environment" in ALLOWED_KEYS
  {
  }

  method AssignLabels(d: Dict, ghost platform: Dict, ghost reported: set<string>) returns (r: Dict, extra: set<string>)
    requires Tracks(d, platform, reported) && KeysOf(d) !! SILENTLY_DROPPED
    ensures r == Put(platform, "labels", NO_LABELS) && extra == reported
  {
    DroppedIsNotAllowed();
    r := Assign(d, "labels", NO_LABELS, platform, reported);
    r, extra := DiscardExtra(r);
  }

  method DiscardMore(d: Dict, ghost allowed: Dict, ghost extra: set<string>) returns (r: Dict)
    requires Tracks(d, allowed, extra) && "container_name" !in KeysOf(d) && "ports" !in KeysOf(d)
    ensures Tracks(r, allowed, extra) && KeysOf(r) !! SILENTLY_DROPPED
  {
    DroppedIsNotAllowed();
    r := Discard(d, "privileged", allowed, extra);
    r := Discard(r, "volumes", allowed, extra);
    r := Discard(r, "devices", allowed, extra);
    r := Discard(r, "cap_add", allowed, extra);
  }

  lemma GetKept(d: Dict, allowed: Dict)
    requires Keep(d, ALLOWED_KEYS) == allowed
    ensures forall k :: k in ALLOWED_KEYS ==> Get(d, k) == Get(allowed, k)
  {
    forall k | k in ALLOWED_KEYS ensures Get(d, k) == Get(allowed, k) {
      GetKeep(d, k, ALLOWED_KEYS);
    }
  }

  /** Choosing the image leaves the settings read later as the fragment has them. */
  lemma KeptLeaves(repr: Json -> string, to: Target, settings: Dict)
    ensures var kept := WithImage(repr, to, Keep(settings, ALLOWED_KEYS));
            && OnlyAllowed(kept)
            && Get(kept, "environment") == Get(settings, "environment")
            && Get(kept, "depends_on") == Get(settings, "depends_on")
  {
    var kept := Keep(settings, ALLOWED_KEYS);
    KeepKeeps(settings, ALLOWED_KEYS);
    WithImageGets(repr, to, kept);
    GetKeep(settings, "environment", ALLOWED_KEYS);
    GetKeep(settings, "depends_on", ALLOWED_KEYS);
    GetPut(kept, "image", Str(to.image), "environment");
  }

  /** One turn of the loop over the services. */
  method ProcessOne(repr: Json -> string, to: Target, names: set<string>, p: Progress, s: Service) returns (r: Partial)
    ensures r == Process(p, Inspect(repr, to, names, s))
  {
    var routed, dropped := p.routed, p.dropped;
    var labels := LabelTexts(repr, Get(s.settings, "labels"));
    if labels.None? {
      return Stopped(TypeError(s.name));
    }
    var enabled, port := ScanLabels(labels.value);
    if enabled {
      if routed.Some? {
        return Stopped(TwoRouted);
      }
      if port.None? {
        return Stopped(NoPort(s.name));
      }
      routed := Some((s.name, port.value));
    }
    var rewritten, extra := RewriteService(repr, to, names, s.settings);
    if rewritten.None? {
      return Stopped(TypeError(s.name));
    }
    if extra != {} {
      dropped := dropped + [(s.name, extra)];
    }
    r := Going(Progress(routed, p.services + [Service(s.name, rewritten.value)], dropped));
  }

  method Rewrite(repr: Json -> string, a: Args, services: seq<Service>) returns (outcome: Outcome)
    ensures outcome == Preview(repr, a, services)
  {
    if !GoodArgs(a) {
      return Exit(BadArgs);
    }
    if services == [] {
      return Exit(NoServices);
    }
    var to, names := TargetOf(a), Names(services);
    ghost var all := InspectAll(repr, to, services);
    var p := Progress(None, [], []);
    for i := 0 to |services|
      invariant Loop(all, i) == Going(p)
    {
      assert all[i] == Inspect(repr, to, names, services[i]);
      var next := ProcessOne(repr, to, names, p, services[i]);
      if next.Stopped? {
        LoopStops(all, i + 1);
        return Exit(next.reason);
      }
      p := next.progress;
    }
    if p.routed.None? {
      return Exit(NothingRouted);
    }
    var (name, port) := p.routed.value;
    if a.strict && ImageOf(p.services, name) != Some(Str(a.image)) {
      return Exit(WrongImage(name));
    }
    outcome := Written(SetLabels(p.services, name, Strings(RouterLabels(to, port))), name, port, p.dropped);
  }

  /** Once the loop has stopped, it stays so. */
  lemma {:induction false} LoopStops(all: seq<Inspected>, k: nat)
    requires k <= |all| && Loop(all, k).Stopped?
    ensures Loop(all, |all|) == Loop(all, k)
    decreases |all| - k
  {
    if k < |all| {
      LoopStops(all, k + 1);
    }
  }
}

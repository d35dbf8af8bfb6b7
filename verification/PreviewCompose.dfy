/** preview-compose.py: rewrites an app's production Compose fragment into a pull request's preview. */
module PreviewCompose {
  import opened Text
  import opened JsonValues

  datatype Args = Args(app: string, pr: string, image: string, strict: bool)

  datatype Service = Service(name: string, settings: Dict)

  datatype Reason =
    | BadArgs
    | NoServices
    | TwoRouted
    | NoPort(name: string)
    | NothingRouted
    | WrongImage(name: string)
    | TypeError(name: string)

  datatype Outcome =
    | Written(services: seq<Service>, routed: string, port: string, dropped: seq<(string, set<string>)>)
    | Exit(reason: Reason)

  const ALLOWED_KEYS: set<string> := {
    "image", "command", "entrypoint", "environment", "env_file", "healthcheck",
    "working_dir", "user", "restart", "depends_on", "labels", "networks",
    "stop_grace_period", "stop_signal", "init", "read_only", "tmpfs", "expose",
    "mem_limit", "cpus", "pids_limit", "security_opt", "cap_drop"
  }

  /** Removed without being reported. */
  const SILENTLY_DROPPED: set<string> :=
    {"container_name", "ports", "privileged", "volumes", "devices", "cap_add"}

  predicate AppChar(c: char) {
    'a' <= c <= 'z' || '0' <= c <= '9' || c == '-'
  }

  predicate GoodArgs(a: Args) {
    a.app != "" && a.pr != "" && (forall c :: c in a.app ==> AppChar(c)) && (forall c :: c in a.pr ==> IsDigit(c))
  }

  /** What the services are rewritten for. */
  datatype Target = Target(project: string, image: string)

  function TargetOf(a: Args): Target {
    Target(a.app + "-pr" + a.pr, a.image)
  }

  function Host(to: Target): string {
    to.project + ".preview.billandjessie.com"
  }

  // --- Labels ---

  const ENABLE := "traefik.enable=true"
  const PORT_HEAD := "traefik.http.services."
  const PORT_TAIL := ".loadbalancer.server.port="

  /** The group of a full match of `traefik\.http\.services\.[^.]+\.loadbalancer\.server\.port=(\d+)`. */
  function LabelPort(text: string): Option<string> {
    PortBetween(text, PORT_HEAD, PORT_TAIL)
  }

  /** The digits that follow `head`, a name without dots, and `tail`, which starts with a dot. */
  function PortBetween(text: string, head: string, tail: string): Option<string> {
    if !(head <= text) then None
    else
      var rest := text[|head|..];
      var dot := Find(rest, '.');
      if dot == 0 || !(tail <= rest[dot..]) then None
      else
        var port := rest[dot + |tail|..];
        if IsPort(port) then Some(port) else None
  }

  predicate IsPort(port: string) {
    port != "" && forall c :: c in port ==> IsDigit(c)
  }

  /** The texts of a `labels` setting, or None where Python raises an error. */
  function LabelTexts(repr: Json -> string, labels: Option<Json>): Option<seq<string>> {
    if labels.None? || !labels.value.Truthy() then Some([])
    else match labels.value
      case Obj(members) =>
        Some(seq(|members|, i requires 0 <= i < |members| => members[i].key + "=" + PyStr(repr, members[i].value)))
      case List(items) =>
        if forall v :: v in items ==> v.Str? then
          Some(seq(|items|, i requires 0 <= i < |items| => if items[i].Str? then items[i].s else ""))
        else None
      case Str(s) => Some(seq(|s|, i requires 0 <= i < |s| => [s[i]]))
      case _ => None
  }

  /** The port of the last label that names one. */
  function LastPort(labels: seq<string>): Option<string> {
    if labels == [] then None
    else
      var port := LabelPort(labels[|labels| - 1]);
      if port.Some? then port else LastPort(labels[..|labels| - 1])
  }

  predicate Enabled(labels: seq<string>) {
    ENABLE in labels
  }

  function RouterLabels(to: Target, port: string): seq<string> {
    var r := to.project;
    [ ENABLE,
      "traefik.docker.network=preview",
      "traefik.http.routers." + r + ".rule=Host(`" + Host(to) + "`)",
      "traefik.http.routers." + r + ".entrypoints=websecure",
      "traefik.http.routers." + r + ".tls.certresolver=route53",
      "traefik.http.routers." + r + ".tls.domains[0].main=*.preview.billandjessie.com",
      "traefik.http.routers." + r + ".middlewares=hsts@docker,authentik-forward-auth@docker",
      PORT_HEAD + r + PORT_TAIL + port ]
  }

  function Strings(texts: seq<string>): Json {
    List(seq(|texts|, i requires 0 <= i < |texts| => Str(texts[i])))
  }

  // --- One service ---

  /** The text before its last colon, or all of it. */
  function BeforeLastColon(s: string): string {
    if ':' !in s then s
    else if s[|s| - 1] == ':' then s[..|s| - 1]
    else BeforeLastColon(s[..|s| - 1])
  }

  /** The text without the ending -preview, if it has it. */
  function WithoutPreview(s: string): string {
    var n := |"-preview"|;
    if |s| >= n && s[|s| - n..] == "-preview" then s[..|s| - n] else s
  }

  predicate IsOwnImage(repr: Json -> string, to: Target, image: Option<Json>) {
    var repository := BeforeLastColon(if image.None? then "" else PyStr(repr, image.value));
    repository == BeforeLastColon(to.image) || repository == WithoutPreview(BeforeLastColon(to.image))
  }

  /** An environment list as a dictionary: each text is cut at its first equals sign, and one without
      such a sign names a variable with an empty value. */
  function EnvFromList(items: seq<Json>): Dict
    requires forall v :: v in items ==> v.Str?
    decreases |items|
  {
    if items == [] then []
    else
      var e := items[|items| - 1].s;
      var k := Find(e, '=');
      Put(EnvFromList(items[..|items| - 1]), e[..k], Str(if k == |e| then "" else e[k + 1..]))
  }

  function NewEnv(to: Target, env: Option<Json>): Option<Dict> {
    var base :=
      if env.None? || !env.value.Truthy() then Some([])
      else if env.value.Obj? then Some(env.value.members)
      else if env.value.List? && forall v :: v in env.value.items ==> v.Str? then Some(EnvFromList(env.value.items))
      else None;
    if base.None? then None
    else Some(Put(Put(base.value, "APP_NAME", Str(to.project)), "PREVIEW", Str("1")))
  }

  function KeepNames(items: seq<Json>, names: set<string>): seq<Json> {
    if items == [] then []
    else (if items[0].Str? && items[0].s in names then [items[0]] else []) + KeepNames(items[1..], names)
  }

  /** The new `depends_on`, or None where a list holds something unhashable. */
  function NewDepends(names: set<string>, depends: Json): Option<Json> {
    match depends
    case Obj(members) => Some(Obj(Keep(members, names)))
    case List(items) =>
      if exists v :: v in items && (v.List? || v.Obj?) then None else Some(List(KeepNames(items, names)))
    case _ => Some(depends)
  }

  /** The settings every preview service gets, whatever the fragment said. */
  const PLATFORM: seq<Member> := [
    Member("env_file", List([Str(".env")])),
    Member("networks", List([Str("preview")])),
    Member("mem_limit", Str("384m")),
    Member("cpus", Real(0.5)),
    Member("pids_limit", Int(256)),
    Member("security_opt", List([Str("no-new-privileges:true")])),
    Member("cap_drop", List([Str("ALL")]))
  ]

  const NO_LABELS := List([])

  function PutAll(d: Dict, members: seq<Member>): Dict
    decreases |members|
  {
    if members == [] then d
    else PutAll(Put(d, members[0].key, members[0].value), members[1..])
  }

  function WithImage(repr: Json -> string, to: Target, d: Dict): Dict {
    if IsOwnImage(repr, to, Get(d, "image")) then Put(d, "image", Str(to.image)) else d
  }

  function WithPlatform(d: Dict, env: Dict): Dict {
    Put(PutAll(Put(d, "environment", Obj(env)), PLATFORM), "labels", NO_LABELS)
  }

  /** One service's settings in the preview, before the router labels: the allowed settings of the
      fragment, with the image, environment, platform settings and dependencies replaced. */
  function Rewritten(repr: Json -> string, to: Target, names: set<string>, svc: Dict): Option<Dict> {
    var kept := WithImage(repr, to, Keep(svc, ALLOWED_KEYS));
    var env := NewEnv(to, Get(svc, "environment"));
    if env.None? then None
    else
      var d := WithPlatform(kept, env.value);
      match Get(svc, "depends_on")
      case None => Some(d)
      case Some(depends) =>
        match NewDepends(names, depends)
        case None => None
        case Some(v) => Some(Put(d, "depends_on", v))
  }

  // --- The whole fragment ---

  function Names(services: seq<Service>): set<string> {
    set s | s in services :: s.name
  }

  ghost predicate UniqueNames(services: seq<Service>) {
    forall i, j :: 0 <= i < j < |services| ==> services[i].name != services[j].name
  }

  /** The services with the labels of the one of that name replaced. */
  function SetLabels(services: seq<Service>, name: string, labels: Json): seq<Service> {
    seq(|services|, i requires 0 <= i < |services| =>
      if services[i].name == name then Service(name, Put(services[i].settings, "labels", labels)) else services[i])
  }

  function ImageOf(services: seq<Service>, name: string): Option<Json> {
    if services == [] then None
    else if services[0].name == name then Get(services[0].settings, "image")
    else ImageOf(services[1..], name)
  }

  /** What the loop finds out about one service. */
  datatype Inspected = Inspected(
    name: string,
    labels: Option<(bool, Option<string>)>,  // traefik.enable=true?, and the port; None if unreadable
    rewritten: Option<Dict>,                 // None if Python raises an error
    extra: set<string>)                      // the keys dropped and reported
  {
    predicate IsWellTyped() {
      labels.Some? && rewritten.Some?
    }

    predicate IsRouted() {
      labels.Some? && labels.value.0
    }

    predicate HasPort() {
      labels.Some? && labels.value.1.Some?
    }
  }

  function Inspect(repr: Json -> string, to: Target, names: set<string>, s: Service): Inspected {
    var labels := LabelTexts(repr, Get(s.settings, "labels"));
    Inspected(
      s.name,
      if labels.None? then None else Some((Enabled(labels.value), LastPort(labels.value))),
      Rewritten(repr, to, names, s.settings),
      KeysOf(s.settings) - ALLOWED_KEYS - SILENTLY_DROPPED)
  }

  function InspectAll(repr: Json -> string, to: Target, services: seq<Service>): (all: seq<Inspected>) {
    seq(|services|, i requires 0 <= i < |services| => Inspect(repr, to, Names(services), services[i]))
  }

  datatype Progress = Progress(
    routed: Option<(string, string)>, services: seq<Service>, dropped: seq<(string, set<string>)>)

  datatype Partial = Going(progress: Progress) | Stopped(reason: Reason)

  /** The loop over the services, up to the k-th. */
  function Loop(all: seq<Inspected>, k: nat): Partial
    requires k <= |all|
  {
    if k == 0 then Going(Progress(None, [], []))
    else
      match Loop(all, k - 1)
      case Stopped(reason) => Stopped(reason)
      case Going(p) => Process(p, all[k - 1])
  }

  function Process(p: Progress, s: Inspected): Partial {
    if s.labels.None? then Stopped(TypeError(s.name))
    else if s.IsRouted() && p.routed.Some? then Stopped(TwoRouted)
    else if s.IsRouted() && !s.HasPort() then Stopped(NoPort(s.name))
    else if s.rewritten.None? then Stopped(TypeError(s.name))
    else
      Going(Progress(
        if s.IsRouted() then Some((s.name, s.labels.value.1.value)) else p.routed,
        p.services + [Service(s.name, s.rewritten.value)],
        if s.extra == {} then p.dropped else p.dropped + [(s.name, s.extra)]))
  }

  /** What is written, once the loop is through. */
  function Finish(a: Args, p: Progress): Outcome {
    if p.routed.None? then Exit(NothingRouted)
    else
      var (name, port) := p.routed.value;
      if a.strict && ImageOf(p.services, name) != Some(Str(a.image)) then Exit(WrongImage(name))
      else Written(SetLabels(p.services, name, Strings(RouterLabels(TargetOf(a), port))), name, port, p.dropped)
  }

  function Preview(repr: Json -> string, a: Args, services: seq<Service>): Outcome {
    if !GoodArgs(a) then Exit(BadArgs)
    else if services == [] then Exit(NoServices)
    else
      match Loop(InspectAll(repr, TargetOf(a), services), |services|)
      case Stopped(reason) => Exit(reason)
      case Going(p) => Finish(a, p)
  }
}

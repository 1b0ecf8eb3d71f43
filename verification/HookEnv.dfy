/** Validating a hook's environment templates at load time, and building the environment
    of its process at run time. */
module HookEnv {
  import opened Wrappers
  import opened Text
  import opened Template

  datatype HookStage = PreAuth | PostAuthSuccess | SessionOpen | SessionClose | UsbRemoved

  function StageName(stage: HookStage): string {
    match stage
    case PreAuth => "pre_auth"
    case PostAuthSuccess => "post_auth_success"
    case SessionOpen => "session_open"
    case SessionClose => "session_close"
    case UsbRemoved => "usb_removed"
  }

  /** Key and value pairs, in the order a sorted map lists them. */
  type Entries<V> = seq<(string, V)>

  // -------------------------------------------------------------- validation

  datatype OnFailure = Abort | Warn | Ignore
  datatype RunAs = Root | User

  datatype RawHook = RawHook(
    stage: HookStage, command: seq<string>, timeoutSeconds: nat,
    onFailure: Option<string>, runAs: Option<string>, env: Entries<string>)

  datatype HookConfig = HookConfig(
    stage: HookStage, command: seq<string>, timeoutSeconds: nat,
    onFailure: OnFailure, runAs: RunAs, env: Entries<seq<Part>>)

  datatype ValidationError =
    | EmptyCommand | InvalidCommandPath(path: string) | InvalidTimeout
    | BadTemplate(reason: ParseError)
    | NotAllowedAtStage(v: PlaceholderVar)

  predicate IsVarAllowed(stage: HookStage, v: PlaceholderVar) {
    stage.PreAuth? ==> v.PamUser? || v.PamService? || v.HostId? || v.HostIdHash? || v.HostIdSource?
  }

  function ParseFailure(value: Option<string>, stage: HookStage): OnFailure {
    if (value == Some("warn") || value == None) && !stage.PreAuth? then Warn
    else if value == Some("ignore") then Ignore
    else Abort
  }

  /** The template's text parses to `parts`, all of whose variables the stage offers. */
  ghost predicate AllowedText(stage: HookStage, text: string, parts: seq<Part>) {
    ParseSpec(text) == Ok(parts) && forall v :: Var(v) in parts ==> IsVarAllowed(stage, v)
  }

  /** Variable `j` of the parts is the first that the stage does not offer. */
  ghost predicate FirstForbidden(stage: HookStage, parts: seq<Part>, j: int) {
    && 0 <= j < |parts| && parts[j].Var? && !IsVarAllowed(stage, parts[j].v)
    && forall i :: 0 <= i < j && parts[i].Var? ==> IsVarAllowed(stage, parts[i].v)
  }

  ghost predicate TextFault(stage: HookStage, text: string, e: ValidationError) {
    match ParseSpec(text)
    case Err(reason) => e == BadTemplate(reason)
    case Ok(parts) => exists j :: FirstForbidden(stage, parts, j) && e == NotAllowedAtStage(parts[j].v)
  }

  method CheckTemplate(stage: HookStage, text: string) returns (r: Result<seq<Part>, ValidationError>)
    ensures match r
            case Ok(parts) => AllowedText(stage, text, parts)
            case Err(e) => TextFault(stage, text, e)
  {
    var parsed := Parse(text);
    if parsed.Err? {
      return Err(BadTemplate(parsed.error));
    }
    var parts := parsed.value;
    for i := 0 to |parts|
      invariant forall k :: 0 <= k < i && parts[k].Var? ==> IsVarAllowed(stage, parts[k].v)
    {
      if parts[i].Var? && !IsVarAllowed(stage, parts[i].v) {
        assert FirstForbidden(stage, parts, i);
        return Err(NotAllowedAtStage(parts[i].v));
      }
    }
    r := Ok(parts);
  }

  /** The entries up to `n` are accepted, as those of `env`. */
  ghost predicate AllowedEntries(stage: HookStage, raw: Entries<string>, env: Entries<seq<Part>>) {
    && |env| <= |raw|
    && forall i :: 0 <= i < |env| ==> env[i].0 == raw[i].0 && AllowedText(stage, raw[i].1, env[i].1)
  }

  ghost predicate GoodCommand(raw: RawHook) {
    raw.command != [] && "/" <= raw.command[0]
  }

  ghost predicate GoodTimeout(raw: RawHook) {
    1 <= raw.timeoutSeconds <= 120
  }

  /** The hook is configured as `hook`: an absolute command, a timeout of one to 120 seconds,
      and templates that parse and only use variables its stage offers. */
  ghost predicate Accepted(raw: RawHook, hook: HookConfig) {
    && GoodCommand(raw) && GoodTimeout(raw)
    && |hook.env| == |raw.env| && AllowedEntries(raw.stage, raw.env, hook.env)
    && hook.stage == raw.stage && hook.command == raw.command && hook.timeoutSeconds == raw.timeoutSeconds
    && hook.onFailure == ParseFailure(raw.onFailure, raw.stage)
    && hook.runAs == if raw.runAs == Some("user") then User else Root
  }

  ghost predicate Allowable(stage: HookStage, text: string) {
    exists parts :: AllowedText(stage, text, parts)
  }

  /** Entry `n` is the first at fault, with `e`. */
  ghost predicate FirstFault(stage: HookStage, raw: Entries<string>, n: int, e: ValidationError) {
    && 0 <= n < |raw| && TextFault(stage, raw[n].1, e)
    && forall i :: 0 <= i < n ==> Allowable(stage, raw[i].1)
  }

  /** The hook is refused for its first fault: command, timeout, then the templates in order. */
  ghost predicate Rejected(raw: RawHook, e: ValidationError) {
    if raw.command == [] then e == EmptyCommand
    else if !GoodCommand(raw) then e == InvalidCommandPath(raw.command[0])
    else if !GoodTimeout(raw) then e == InvalidTimeout
    else exists n :: FirstFault(raw.stage, raw.env, n, e)
  }

  method ValidateHook(raw: RawHook) returns (r: Result<HookConfig, ValidationError>)
    ensures match r
            case Ok(hook) => Accepted(raw, hook)
            case Err(e) => Rejected(raw, e)
  {
    if raw.command == [] {
      return Err(EmptyCommand);
    }
    var first := raw.command[0];
    if !("/" <= first) {
      return Err(InvalidCommandPath(first));
    }
    if raw.timeoutSeconds == 0 || raw.timeoutSeconds > 120 {
      return Err(InvalidTimeout);
    }
    var env: Entries<seq<Part>> := [];
    for i := 0 to |raw.env|
      invariant |env| == i && AllowedEntries(raw.stage, raw.env, env)
    {
      var template := CheckTemplate(raw.stage, raw.env[i].1);
      if template.Err? {
        FaultAfter(raw.stage, raw.env, env, template.error);
        return Err(template.error);
      }
      env := env + [(raw.env[i].0, template.value)];
    }
    r := Ok(HookConfig(raw.stage, raw.command, raw.timeoutSeconds, ParseFailure(raw.onFailure, raw.stage),
                       if raw.runAs == Some("user") then User else Root, env));
  }

  lemma FaultAfter(stage: HookStage, raw: Entries<string>, env: Entries<seq<Part>>, e: ValidationError)
    requires AllowedEntries(stage, raw, env) && |env| < |raw| && TextFault(stage, raw[|env|].1, e)
    ensures FirstFault(stage, raw, |env|, e)
  {
    forall i | 0 <= i < |env| ensures Allowable(stage, raw[i].1) {
      assert AllowedText(stage, raw[i].1, env[i].1);
    }
  }

  lemma AllowedHasNoFault(stage: HookStage, text: string, parts: seq<Part>, e: ValidationError)
    requires AllowedText(stage, text, parts)
    ensures !TextFault(stage, text, e)
  {
  }

  /** No hook is both acceptable and refusable, so validation accepts exactly the acceptable ones. */
  lemma AcceptedOrRejected(raw: RawHook, hook: HookConfig, e: ValidationError)
    requires Accepted(raw, hook)
    ensures !Rejected(raw, e)
  {
    if n :| FirstFault(raw.stage, raw.env, n, e) {
      AllowedHasNoFault(raw.stage, raw.env[n].1, hook.env[n].1, e);
    }
  }

  /** There is one way to accept a hook. */
  lemma AcceptedOnce(raw: RawHook, hook: HookConfig, hook': HookConfig)
    requires Accepted(raw, hook) && Accepted(raw, hook')
    ensures hook == hook'
  {
    forall i | 0 <= i < |raw.env| ensures hook.env[i] == hook'.env[i] {
      assert AllowedText(raw.stage, raw.env[i].1, hook.env[i].1) && AllowedText(raw.stage, raw.env[i].1, hook'.env[i].1);
    }
  }

  // --------------------------------------------------------------- variables

  datatype HookVars = HookVars(
    stage: HookStage, pamUser: Option<string>, pamService: Option<string>, hostId: Option<string>,
    hostIdHash: Option<string>, hostIdSource: Option<string>, certCn: Option<string>, certSerial: Option<string>,
    usbSerial: Option<string>, usbVidPid: Option<string>, sessionId: Option<string>)
  {
    function Resolve(v: PlaceholderVar): Option<string> {
      match v
      case PamUser => pamUser
      case PamService => pamService
      case HostId => hostId
      case HostIdHash => hostIdHash
      case HostIdSource => hostIdSource
      case CertCn => certCn
      case CertSerial => certSerial
      case UsbSerial => usbSerial
      case UsbVidPid => usbVidPid
      case SessionId => sessionId
    }
  }

  datatype AuthContext = AuthContext(
    sessionId: string, certCn: Option<string>, certSerial: Option<string>, usbSerial: Option<string>,
    usbVidPid: Option<string>, pamService: string, hostId: string, hostIdSource: string)

  function ForPreAuth(pamUser: string, pamService: string, hostId: string, hostIdHash: string, hostIdSource: string): HookVars {
    HookVars(PreAuth, Some(pamUser), Some(pamService), Some(hostId), Some(hostIdHash), Some(hostIdSource),
             None, None, None, None, None)
  }

  /** The session stages take everything from the stored context; the host id doubles as its hash. */
  function ForSessionLike(stage: HookStage, pamUser: string, ctx: AuthContext): HookVars {
    HookVars(stage, Some(pamUser), Some(ctx.pamService), Some(ctx.hostId), Some(ctx.hostId), Some(ctx.hostIdSource),
             ctx.certCn, ctx.certSerial, ctx.usbSerial, ctx.usbVidPid, Some(ctx.sessionId))
  }

  /** The values a successful authentication may leave unknown. */
  predicate MayBeMissing(v: PlaceholderVar) {
    v.CertCn? || v.CertSerial? || v.UsbSerial? || v.UsbVidPid?
  }

  /** The variables a stage allows are exactly those it has a value for: before authentication, the
      user, service and host values; later all of them, once the context is complete. */
  lemma AllowedExactly(v: PlaceholderVar, stage: HookStage, pamUser: string, pamService: string, hostId: string,
                       hostIdHash: string, hostIdSource: string, ctx: AuthContext)
    requires ctx.certCn.Some? && ctx.certSerial.Some? && ctx.usbSerial.Some? && ctx.usbVidPid.Some?
    ensures IsVarAllowed(PreAuth, v) <==> ForPreAuth(pamUser, pamService, hostId, hostIdHash, hostIdSource).Resolve(v).Some?
    ensures !stage.PreAuth? ==> (IsVarAllowed(stage, v) <==> ForSessionLike(stage, pamUser, ctx).Resolve(v).Some?)
  {
  }

  /** Before authentication a failing hook aborts unless told to be ignored; later it only warns by
      default, and aborts on any setting but the two it knows. */
  lemma FailureModes(value: Option<string>, stage: HookStage)
    ensures ParseFailure(Some("ignore"), stage) == Ignore
    ensures ParseFailure(value, stage) == Warn <==> !stage.PreAuth? && (value == None || value == Some("warn"))
    ensures ParseFailure(value, stage) == Ignore <==> value == Some("ignore")
    ensures stage.PreAuth? && value != Some("ignore") ==> ParseFailure(value, stage) == Abort
    ensures value.Some? && value.value != "warn" && value.value != "ignore" ==> ParseFailure(value, stage) == Abort
  {
    assert "warn"[0] != "ignore"[0];
  }

  // ------------------------------------------------------------- environment

  datatype EnvError =
    | UnresolvedVar(v: PlaceholderVar)
    | ValueRejected(key: string, reason: string)
    | ChildSetup(message: string)

  const DEFAULT_PATH: string := "/usr/sbin:/usr/bin:/sbin:/bin"

  function OrEmpty(s: Option<string>): string {
    if s.Some? then s.value else ""
  }

  /** The fixed entries, in the order they are inserted. */
  function BaseEntries(stage: HookStage, vars: HookVars, user: string, home: string): Entries<string> {
    [("PATH", DEFAULT_PATH), ("HOME", home), ("USER", user), ("LOGNAME", user), ("LANG", "C.UTF-8"),
     ("PAM_CERTAUTH_STAGE", StageName(stage)),
     ("PAM_CERTAUTH_USER", OrEmpty(vars.pamUser)),
     ("PAM_CERTAUTH_SERVICE", OrEmpty(vars.pamService)),
     ("PAM_CERTAUTH_HOST_ID", OrEmpty(vars.hostId)),
     ("PAM_CERTAUTH_HOST_ID_HASH", OrEmpty(vars.hostIdHash)),
     ("PAM_CERTAUTH_HOST_ID_SOURCE", OrEmpty(vars.hostIdSource)),
     ("PAM_CERTAUTH_CERT_CN", OrEmpty(vars.certCn)),
     ("PAM_CERTAUTH_CERT_SERIAL", OrEmpty(vars.certSerial)),
     ("PAM_CERTAUTH_USB_SERIAL", OrEmpty(vars.usbSerial)),
     ("PAM_CERTAUTH_USB_VID_PID", OrEmpty(vars.usbVidPid)),
     ("PAM_CERTAUTH_SESSION_ID", OrEmpty(vars.sessionId))]
  }

  /** The rendered custom entries; the first unresolved variable aborts. */
  function RenderAll(env: Entries<seq<Part>>, vars: HookVars): Result<Entries<string>, EnvError> {
    if env == [] then Ok([])
    else
      var before := RenderAll(env[..|env| - 1], vars);
      var last := RenderSpec(env[|env| - 1].1, v => vars.Resolve(v));
      if before.Err? then before
      else if last.Err? then Err(UnresolvedVar(last.error))
      else Ok(before.value + [(env[|env| - 1].0, last.value)])
  }

  /** Inserting entries one after the other: the last writer of a key wins. */
  function MapOf(entries: Entries<string>): map<string, string> {
    if entries == [] then map[]
    else MapOf(entries[..|entries| - 1])[entries[|entries| - 1].0 := entries[|entries| - 1].1]
  }

  /** Entry `i` is the last one written under `k`. */
  ghost predicate LastWrite(entries: Entries<string>, i: int, k: string) {
    0 <= i < |entries| && entries[i].0 == k && forall j :: i < j < |entries| ==> entries[j].0 != k
  }

  /** The map has exactly the keys that were written, each with its last value. */
  lemma {:induction false} LastWriterWins(entries: Entries<string>, k: string)
    ensures k in MapOf(entries) <==> exists i :: LastWrite(entries, i, k)
    ensures forall i :: LastWrite(entries, i, k) ==> MapOf(entries)[k] == entries[i].1
  {
    if entries != [] {
      var (init, n) := (entries[..|entries| - 1], |entries| - 1);
      LastWriterWins(init, k);
      if entries[n].0 == k {
        assert LastWrite(entries, n, k);
      } else {
        assert forall i :: LastWrite(entries, i, k) <==> LastWrite(init, i, k);
      }
    }
  }

  lemma {:induction false} Written(entries: Entries<string>, k: string) returns (i: int)
    requires exists j :: 0 <= j < |entries| && entries[j].0 == k
    ensures LastWrite(entries, i, k)
  {
    i := |entries| - 1;
    if entries[i].0 != k {
      var j :| 0 <= j < |entries| && entries[j].0 == k;
      assert entries[..i][j].0 == k;
      i := Written(entries[..i], k);
    }
  }

  predicate Control(c: char) {
    c as int < 0x20
  }

  ghost predicate Clean(v: string) {
    forall i :: 0 <= i < |v| ==> v[i] as int >= 0x20
  }

  function ReasonOf(c: char): string {
    if c == '\n' then "contains newline (0x0A)"
    else if c == '\r' then "contains carriage return (0x0D)"
    else if c == '\0' then "contains NUL byte"
    else "contains control byte (< 0x20)"
  }

  /** The first control character of `v` is at `i`. */
  ghost predicate FirstControl(v: string, i: int) {
    0 <= i < |v| && Control(v[i]) && forall j :: 0 <= j < i ==> !Control(v[j])
  }

  method ForbiddenControl(v: string) returns (reason: Option<string>)
    ensures reason.None? <==> Clean(v)
    ensures reason.Some? ==> exists i :: FirstControl(v, i) && reason == Some(ReasonOf(v[i]))
  {
    for i := 0 to |v|
      invariant forall j :: 0 <= j < i ==> !Control(v[j])
    {
      if Control(v[i]) {
        assert FirstControl(v, i);
      }
      var c := v[i];
      if c == '\n' {
        return Some("contains newline (0x0A)");
      } else if c == '\r' {
        return Some("contains carriage return (0x0D)");
      } else if c as int == 0 {
        return Some("contains NUL byte");
      } else if Control(c) {
        return Some("contains control byte (< 0x20)");
      }
    }
    reason := None;
  }

  function Entry(k: string, v: string): string {
    k + "=" + v
  }

  /** `keys` lists the keys of a map in order. */
  ghost predicate InOrder(keys: seq<string>, ks: set<string>) {
    (forall k :: k in keys <==> k in ks) && forall i, j :: 0 <= i < j < |keys| ==> TextLess(keys[i], keys[j])
  }

  ghost predicate Passes(k: string, v: string) {
    Clean(v) && '\0' !in k
  }

  /** The error a key deserves: its value is looked at before the key itself. */
  ghost predicate Fault(k: string, v: string, e: EnvError) {
    if Clean(v) then '\0' in k && e == ChildSetup("env value contains NUL byte")
    else exists i :: FirstControl(v, i) && e == ValueRejected(k, ReasonOf(v[i]))
  }

  /** One `KEY=VALUE` entry for each key, in the order of the keys; or the error of the first
      key at fault. */
  ghost predicate Encodes(env: map<string, string>, keys: seq<string>, r: Result<seq<string>, EnvError>)
    requires InOrder(keys, env.Keys)
  {
    match r
    case Ok(out) =>
      && |out| == |keys|
      && forall i :: 0 <= i < |keys| ==> Passes(keys[i], env[keys[i]]) && out[i] == Entry(keys[i], env[keys[i]])
    case Err(e) =>
      exists n :: 0 <= n < |keys| && Fault(keys[n], env[keys[n]], e)
                  && forall i :: 0 <= i < n ==> Passes(keys[i], env[keys[i]])
  }

  ghost predicate EnvOutcome(hook: HookConfig, vars: HookVars, user: string, home: string, r: Result<seq<string>, EnvError>) {
    var custom := RenderAll(hook.env, vars);
    if custom.Err? then r == Err(custom.error)
    else
      var env := MapOf(BaseEntries(hook.stage, vars, user, home) + custom.value);
      exists keys :: InOrder(keys, env.Keys) && Encodes(env, keys, r)
  }

  method BuildEnvVector(hook: HookConfig, vars: HookVars, runAs: Option<(string, string)>) returns (r: Result<seq<string>, EnvError>)
    ensures var (user, home) := if runAs.Some? then runAs.value else ("root", "/root");
            EnvOutcome(hook, vars, user, home, r)
  {
    var (user, home) := if runAs.Some? then runAs.value else ("root", "/root");
    var custom := RenderEntries(hook.env, vars);
    if custom.Err? {
      return Err(custom.error);
    }
    var env := InsertAll(BaseEntries(hook.stage, vars, user, home) + custom.value);
    var keys := KeysInOrder(env.Keys);
    r := Encode(env, keys);
  }

  method RenderEntries(env: Entries<seq<Part>>, vars: HookVars) returns (r: Result<Entries<string>, EnvError>)
    ensures r == RenderAll(env, vars)
  {
    var out: Entries<string> := [];
    for i := 0 to |env|
      invariant RenderAll(env[..i], vars) == Ok(out)
    {
      assert env[..i + 1][..i] == env[..i];
      var text := Render(env[i].1, v => vars.Resolve(v));
      if text.Err? {
        RenderingStops(env, vars, i + 1);
        return Err(UnresolvedVar(text.error));
      }
      out := out + [(env[i].0, text.value)];
    }
    assert env[..|env|] == env;
    r := Ok(out);
  }

  lemma {:induction false} RenderingStops(env: Entries<seq<Part>>, vars: HookVars, i: nat)
    requires i <= |env| && RenderAll(env[..i], vars).Err?
    ensures RenderAll(env, vars) == RenderAll(env[..i], vars)
  {
    if i < |env| {
      assert env[..|env| - 1][..i] == env[..i];
      RenderingStops(env[..|env| - 1], vars, i);
    } else {
      assert env[..i] == env;
    }
  }

  method InsertAll(entries: Entries<string>) returns (env: map<string, string>)
    ensures env == MapOf(entries)
  {
    env := map[];
    for i := 0 to |entries|
      invariant env == MapOf(entries[..i])
    {
      assert entries[..i + 1][..i] == entries[..i];
      env := env[entries[i].0 := entries[i].1];
    }
    assert entries[..|entries|] == entries;
  }

  method LeastKey(ks: set<string>) returns (least: string)
    requires ks != {}
    ensures least in ks && forall k :: k in ks ==> k == least || TextLess(least, k)
  {
    least :| least in ks;
    var rest := ks - {least};
    while rest != {}
      invariant least in ks && least !in rest && rest <= ks
      invariant forall k :: k in ks && k !in rest ==> k == least || TextLess(least, k)
      decreases rest
    {
      var k :| k in rest;
      TextLessTotal(least, k);
      if TextLess(k, least) {
        LessThanAll(k, least, ks - rest);
        least := k;
      }
      rest := rest - {k};
    }
  }

  lemma LessThanAll(a: string, b: string, ks: set<string>)
    requires TextLess(a, b) && forall k :: k in ks ==> k == b || TextLess(b, k)
    ensures forall k :: k in ks ==> TextLess(a, k)
  {
    forall k | k in ks ensures TextLess(a, k) {
      if k != b {
        TextLessTransitive(a, b, k);
      }
    }
  }

  /** The order in which a sorted map is gone through. */
  method KeysInOrder(ks: set<string>) returns (keys: seq<string>)
    ensures InOrder(keys, ks)
  {
    keys := [];
    var rest := ks;
    while rest != {}
      invariant rest <= ks && InOrder(keys, ks - rest)
      invariant forall k, k' :: k in keys && k' in rest ==> TextLess(k, k')
      decreases rest
    {
      var k := LeastKey(rest);
      keys := keys + [k];
      rest := rest - {k};
    }
  }

  method Encode(env: map<string, string>, keys: seq<string>) returns (r: Result<seq<string>, EnvError>)
    requires InOrder(keys, env.Keys)
    ensures Encodes(env, keys, r)
  {
    var out := [];
    for n := 0 to |keys|
      invariant |out| == n
      invariant forall i :: 0 <= i < n ==> Passes(keys[i], env[keys[i]]) && out[i] == Entry(keys[i], env[keys[i]])
    {
      var (k, v) := (keys[n], env[keys[n]]);
      var reason := ForbiddenControl(v);
      if reason.Some? {
        return Err(ValueRejected(k, reason.value));
      }
      if '\0' in k {
        return Err(ChildSetup("env value contains NUL byte"));
      }
      out := out + [Entry(k, v)];
    }
    r := Ok(out);
  }

  // ------------------------------------------------------------ the theorems

  /** Part `j` is the first variable without a value. */
  ghost predicate MissingAt(parts: seq<Part>, vars: HookVars, j: int) {
    && 0 <= j < |parts| && parts[j].Var? && vars.Resolve(parts[j].v).None?
    && forall i :: 0 <= i < j && parts[i].Var? ==> vars.Resolve(parts[i].v).Some?
  }

  ghost predicate AllPresent(parts: seq<Part>, vars: HookVars) {
    forall i :: 0 <= i < |parts| && parts[i].Var? ==> vars.Resolve(parts[i].v).Some?
  }

  /** A template fails to render exactly when one of its variables has no value, and then
      names the first such variable. */
  lemma {:induction false} RenderFailsOnMissing(parts: seq<Part>, vars: HookVars)
    ensures var r := RenderSpec(parts, v => vars.Resolve(v));
            && (r.Ok? <==> AllPresent(parts, vars))
            && (r.Err? ==> exists j :: MissingAt(parts, vars, j) && r.error == parts[j].v)
  {
    if parts != [] {
      var (init, last) := (parts[..|parts| - 1], parts[|parts| - 1]);
      RenderFailsOnMissing(init, vars);
      var r := RenderSpec(init, v => vars.Resolve(v));
      if r.Err? {
        var j :| MissingAt(init, vars, j) && r.error == init[j].v;
        assert MissingAt(parts, vars, j);
      } else if last.Var? && vars.Resolve(last.v).None? {
        assert forall i :: 0 <= i < |init| ==> init[i] == parts[i];
        assert MissingAt(parts, vars, |init|);
      }
    }
  }

  /** Variable `j` of entry `n` is the first of all that has no value. */
  ghost predicate UnresolvedAt(env: Entries<seq<Part>>, vars: HookVars, n: int, j: int) {
    0 <= n < |env| && MissingAt(env[n].1, vars, j) && forall m :: 0 <= m < n ==> AllPresent(env[m].1, vars)
  }

  /** Rendering fails exactly when some entry uses a variable without a value, and names the first. */
  lemma {:induction false} RenderAllFailsOnMissing(env: Entries<seq<Part>>, vars: HookVars)
    ensures var r := RenderAll(env, vars);
            && (r.Ok? <==> forall n :: 0 <= n < |env| ==> AllPresent(env[n].1, vars))
            && (r.Err? ==> exists n, j :: UnresolvedAt(env, vars, n, j) && r.error == UnresolvedVar(env[n].1[j].v))
  {
    if env != [] {
      var (init, last) := (env[..|env| - 1], env[|env| - 1]);
      RenderAllFailsOnMissing(init, vars);
      RenderFailsOnMissing(last.1, vars);
      assert forall n :: 0 <= n < |init| ==> init[n] == env[n];
      var r := RenderAll(init, vars);
      if r.Err? {
        var n, j :| UnresolvedAt(init, vars, n, j) && r.error == UnresolvedVar(init[n].1[j].v);
        assert UnresolvedAt(env, vars, n, j);
      } else if j :| MissingAt(last.1, vars, j) && RenderSpec(last.1, v => vars.Resolve(v)) == Err(last.1[j].v) {
        assert UnresolvedAt(env, vars, |init|, j);
      }
    }
  }

  /** A hook accepted for pre-auth never fails there for want of a value, whoever it runs as. */
  lemma PreAuthAlwaysResolves(
    raw: RawHook, hook: HookConfig, pamUser: string, pamService: string, hostId: string, hostIdHash: string,
    hostIdSource: string, user: string, home: string, r: Result<seq<string>, EnvError>)
    requires raw.stage.PreAuth? && Accepted(raw, hook)
    requires EnvOutcome(hook, ForPreAuth(pamUser, pamService, hostId, hostIdHash, hostIdSource), user, home, r)
    ensures r.Err? ==> !r.error.UnresolvedVar?
  {
    var vars := ForPreAuth(pamUser, pamService, hostId, hostIdHash, hostIdSource);
    RenderAllFailsOnMissing(hook.env, vars);
    forall n, i | 0 <= n < |hook.env| && 0 <= i < |hook.env[n].1| && hook.env[n].1[i].Var?
      ensures vars.Resolve(hook.env[n].1[i].v).Some?
    {
      assert AllowedText(PreAuth, raw.env[n].1, hook.env[n].1);
      assert Var(hook.env[n].1[i].v) in hook.env[n].1;
    }
    assert RenderAll(hook.env, vars).Ok?;
  }

  /** At the session stages rendering fails exactly when an entry uses one of the certificate or
      USB values that the context lacks, and names the first such one. */
  lemma SessionResolvesAllButOptional(env: Entries<seq<Part>>, stage: HookStage, pamUser: string, ctx: AuthContext)
    ensures var vars := ForSessionLike(stage, pamUser, ctx);
            var r := RenderAll(env, vars);
            && (r.Ok? <==> forall n, v :: 0 <= n < |env| && Var(v) in env[n].1 && MayBeMissing(v) ==> vars.Resolve(v).Some?)
            && (r.Err? ==> exists n, j :: UnresolvedAt(env, vars, n, j) && MayBeMissing(env[n].1[j].v)
                                          && r.error == UnresolvedVar(env[n].1[j].v))
    ensures var vars := ForSessionLike(stage, pamUser, ctx);
            && vars.Resolve(CertCn) == ctx.certCn && vars.Resolve(CertSerial) == ctx.certSerial
            && vars.Resolve(UsbSerial) == ctx.usbSerial && vars.Resolve(UsbVidPid) == ctx.usbVidPid
  {
    var vars := ForSessionLike(stage, pamUser, ctx);
    RenderAllFailsOnMissing(env, vars);
    forall n | 0 <= n < |env|
      ensures AllPresent(env[n].1, vars) <==> forall v :: Var(v) in env[n].1 && MayBeMissing(v) ==> vars.Resolve(v).Some?
    {
      assert forall i :: 0 <= i < |env[n].1| && env[n].1[i].Var? ==> Var(env[n].1[i].v) in env[n].1;
    }
  }

  // --------------------------------------------------------- reading it back

  /** A `KEY=VALUE` entry split at its first `=`. */
  function SplitEntry(e: string): (string, string) {
    IndexOfRange(e, '=');
    var i := IndexOf(e, '=');
    if i == |e| then (e, "") else (e[..i], e[i + 1..])
  }

  /** The environment a child reads from its entries. */
  function ReadBack(out: seq<string>): map<string, string> {
    MapOf(Splits(out))
  }

  function Splits(out: seq<string>): Entries<string> {
    seq(|out|, i requires 0 <= i < |out| => SplitEntry(out[i]))
  }

  /** Splitting an entry recovers key and value exactly when the key holds no `=`, and never
      yields a key with one. */
  lemma SplitRecovers(k: string, v: string)
    ensures SplitEntry(Entry(k, v)) == (k, v) <==> '=' !in k
    ensures '=' !in SplitEntry(Entry(k, v)).0
  {
    var e := Entry(k, v);
    IndexOfRange(e, '=');
    assert e[|k|] == '=';
    assert e[..|e|] == e;
    if '=' !in k {
      assert e[..|k|] == k;
      FoundAt(e, '=', |k|);
      assert e[|k| + 1..] == v;
    }
  }

  /** Reading the entries of a map back gives the map exactly when no key holds `=`. */
  lemma ReadBackExactly(env: map<string, string>, keys: seq<string>, out: seq<string>)
    requires InOrder(keys, env.Keys) && Encodes(env, keys, Ok(out))
    ensures ReadBack(out) == env <==> forall k :: k in env ==> '=' !in k
  {
    var parts := Splits(out);
    forall i | 0 <= i < |out|
      ensures '=' !in parts[i].0 && ('=' !in keys[i] ==> parts[i] == (keys[i], env[keys[i]]))
    {
      SplitRecovers(keys[i], env[keys[i]]);
    }
    forall k | k in ReadBack(out) ensures '=' !in k {
      LastWriterWins(parts, k);
    }
    if forall k :: k in env ==> '=' !in k {
      forall k ensures k in ReadBack(out) <==> k in env
        ensures k in env ==> ReadBack(out)[k] == env[k]
      {
        LastWriterWins(parts, k);
        if k in env {
          var i :| 0 <= i < |keys| && keys[i] == k;
          assert parts[i].0 == k;
          var _ := Written(parts, k);
        }
      }
    }
  }

  lemma FixedKeysHaveNoEquals(stage: HookStage, vars: HookVars, user: string, home: string)
    ensures var base := BaseEntries(stage, vars, user, home);
            forall i :: 0 <= i < |base| ==> '=' !in base[i].0
  {
  }

  lemma {:induction false} RenderKeepsKeys(env: Entries<seq<Part>>, vars: HookVars)
    requires RenderAll(env, vars).Ok?
    ensures var out := RenderAll(env, vars).value;
            |out| == |env| && forall i :: 0 <= i < |env| ==> out[i].0 == env[i].0
  {
    if env != [] {
      RenderKeepsKeys(env[..|env| - 1], vars);
    }
  }

  /** What a child reads back from the whole vector is the map of the last writers, exactly when
      no key of the hook's own entries holds `=`. */
  lemma ChildReadsBack(hook: HookConfig, vars: HookVars, user: string, home: string, out: seq<string>)
    requires EnvOutcome(hook, vars, user, home, Ok(out))
    ensures RenderAll(hook.env, vars).Ok?
    ensures ReadBack(out) == MapOf(BaseEntries(hook.stage, vars, user, home) + RenderAll(hook.env, vars).value) <==>
            forall i :: 0 <= i < |hook.env| ==> '=' !in hook.env[i].0
  {
    var (base, custom) := (BaseEntries(hook.stage, vars, user, home), RenderAll(hook.env, vars).value);
    var env := MapOf(base + custom);
    var keys :| InOrder(keys, env.Keys) && Encodes(env, keys, Ok(out));
    ReadBackExactly(env, keys, out);
    RenderKeepsKeys(hook.env, vars);
    FixedKeysHaveNoEquals(hook.stage, vars, user, home);
    OnlyCustomEquals(base, custom);
  }

  lemma OnlyCustomEquals(base: Entries<string>, custom: Entries<string>)
    requires forall i :: 0 <= i < |base| ==> '=' !in base[i].0
    ensures (forall k :: k in MapOf(base + custom) ==> '=' !in k) <==> forall i :: 0 <= i < |custom| ==> '=' !in custom[i].0
  {
    var all := base + custom;
    KeysAreWritten(all);
    forall i | 0 <= i < |custom| ensures custom[i].0 in MapOf(all) {
      assert all[|base| + i] == custom[i];
    }
  }

  lemma KeysAreWritten(entries: Entries<string>)
    ensures forall k :: k in MapOf(entries) ==> exists i :: 0 <= i < |entries| && entries[i].0 == k
    ensures forall i :: 0 <= i < |entries| ==> entries[i].0 in MapOf(entries)
  {
    forall k | k in MapOf(entries) ensures exists i :: 0 <= i < |entries| && entries[i].0 == k {
      LastWriterWins(entries, k);
      var i :| LastWrite(entries, i, k);
    }
    forall i | 0 <= i < |entries| ensures entries[i].0 in MapOf(entries) {
      LastWriterWins(entries, entries[i].0);
      var _ := Written(entries, entries[i].0);
    }
  }
}

/** What each variable of a hook's environment holds. */
module HookExports {
  import opened Wrappers
  import opened Text
  import opened Template
  import opened HookEnv

  // ------------------------------------------------------------------- names

  /** The exported variable that carries a placeholder's value. */
  function ExportKey(v: PlaceholderVar): string {
    match v
    case PamUser => "PAM_CERTAUTH_USER"
    case PamService => "PAM_CERTAUTH_SERVICE"
    case HostId => "PAM_CERTAUTH_HOST_ID"
    case HostIdHash => "PAM_CERTAUTH_HOST_ID_HASH"
    case HostIdSource => "PAM_CERTAUTH_HOST_ID_SOURCE"
    case CertCn => "PAM_CERTAUTH_CERT_CN"
    case CertSerial => "PAM_CERTAUTH_CERT_SERIAL"
    case UsbSerial => "PAM_CERTAUTH_USB_SERIAL"
    case UsbVidPid => "PAM_CERTAUTH_USB_VID_PID"
    case SessionId => "PAM_CERTAUTH_SESSION_ID"
  }

  function UpperChar(c: char): char {
    if 'a' <= c <= 'z' then (c as int - 32) as char else c
  }

  /** After 13 characters of prefix the key is the name without its first `skip` ones, in upper case. */
  ghost predicate NamedAfter(key: string, name: string, skip: nat) {
    |key| + skip == 13 + |name| && forall i :: skip <= i < |name| ==> key[13 + i - skip] == UpperChar(name[i])
  }

  /** It is named after the placeholder, in upper case and without the `pam_` of two of them. */
  lemma ExportsAreNamedAfterPlaceholders(v: PlaceholderVar)
    ensures NamedAfter(ExportKey(v), Name(v), if v.PamUser? || v.PamService? then 4 else 0)
  {
    PamNames();
    HostNames();
    CertNames();
    DeviceNames();
  }

  lemma PamNames()
    ensures NamedAfter("PAM_CERTAUTH_USER", "pam_user", 4) && NamedAfter("PAM_CERTAUTH_SERVICE", "pam_service", 4)
    ensures NamedAfter("PAM_CERTAUTH_SESSION_ID", "session_id", 0)
  {
  }

  lemma HostNames()
    ensures NamedAfter("PAM_CERTAUTH_HOST_ID", "host_id", 0) && NamedAfter("PAM_CERTAUTH_HOST_ID_HASH", "host_id_hash", 0)
    ensures NamedAfter("PAM_CERTAUTH_HOST_ID_SOURCE", "host_id_source", 0)
  {
  }

  lemma CertNames()
    ensures NamedAfter("PAM_CERTAUTH_CERT_CN", "cert_cn", 0) && NamedAfter("PAM_CERTAUTH_CERT_SERIAL", "cert_serial", 0)
  {
  }

  lemma DeviceNames()
    ensures NamedAfter("PAM_CERTAUTH_USB_SERIAL", "usb_serial", 0) && NamedAfter("PAM_CERTAUTH_USB_VID_PID", "usb_vid_pid", 0)
  {
  }

  ghost function FixedKey(i: nat): string
    requires i < 16
  {
    ["PATH", "HOME", "USER", "LOGNAME", "LANG", "PAM_CERTAUTH_STAGE",
     "PAM_CERTAUTH_USER", "PAM_CERTAUTH_SERVICE", "PAM_CERTAUTH_HOST_ID", "PAM_CERTAUTH_HOST_ID_HASH",
     "PAM_CERTAUTH_HOST_ID_SOURCE", "PAM_CERTAUTH_CERT_CN", "PAM_CERTAUTH_CERT_SERIAL", "PAM_CERTAUTH_USB_SERIAL",
     "PAM_CERTAUTH_USB_VID_PID", "PAM_CERTAUTH_SESSION_ID"][i]
  }

  /** Length and a distinguishing character of a fixed key. */
  ghost function Mark(i: nat): (nat, char)
    requires i < 16
  {
    [(4, 'P'), (4, 'H'), (4, 'U'), (7, 'L'), (4, 'L'), (18, 'S'), (17, 'U'), (20, 'S'), (20, 'H'), (25, 'H'),
     (27, 'H'), (20, 'C'), (24, 'C'), (23, 'U'), (24, 'U'), (23, 'S')][i]
  }

  lemma FixedKeyMarked(i: nat)
    requires i < 16
    ensures |FixedKey(i)| == Mark(i).0 >= 1 && FixedKey(i)[if |FixedKey(i)| > 13 then 13 else 0] == Mark(i).1
  {
  }

  lemma FixedKeysDiffer(i: nat, j: nat)
    requires i < 16 && j < 16 && i != j
    ensures FixedKey(i) != FixedKey(j)
  {
    FixedKeyMarked(i);
    FixedKeyMarked(j);
    MarksDiffer(i, j);
  }

  lemma MarksDiffer(i: nat, j: nat)
    requires i < 16 && j < 16 && i != j
    ensures Mark(i) != Mark(j)
  {
  }

  lemma FixedKeys(stage: HookStage, vars: HookVars, user: string, home: string, i: nat)
    requires i < 16
    ensures |BaseEntries(stage, vars, user, home)| == 16 && BaseEntries(stage, vars, user, home)[i].0 == FixedKey(i)
  {
  }

  /** Without an override, a fixed entry is the one that counts. */
  lemma FixedEntryWins(stage: HookStage, vars: HookVars, user: string, home: string, custom: Entries<string>, i: nat)
    requires i < 16 && forall k :: 0 <= k < |custom| ==> custom[k].0 != FixedKey(i)
    ensures |BaseEntries(stage, vars, user, home)| == 16
    ensures var env := MapOf(BaseEntries(stage, vars, user, home) + custom);
            FixedKey(i) in env && env[FixedKey(i)] == BaseEntries(stage, vars, user, home)[i].1
  {
    var base := BaseEntries(stage, vars, user, home);
    FixedKeys(stage, vars, user, home, i);
    forall j | i < j < 16 ensures base[j].0 != FixedKey(i) {
      FixedKeys(stage, vars, user, home, j);
      FixedKeysDiffer(i, j);
    }
    LastOfBase(base, custom, i);
  }

  lemma LastOfBase(base: Entries<string>, custom: Entries<string>, i: nat)
    requires i < |base| && forall j :: i < j < |base| ==> base[j].0 != base[i].0
    requires forall k :: 0 <= k < |custom| ==> custom[k].0 != base[i].0
    ensures base[i].0 in MapOf(base + custom) && MapOf(base + custom)[base[i].0] == base[i].1
  {
    var all := base + custom;
    assert all[i] == base[i];
    forall j | i < j < |all| ensures all[j].0 != all[i].0 {
      assert all[j] == if j < |base| then base[j] else custom[j - |base|];
    }
    LastWriterWins(all, all[i].0);
    assert LastWrite(all, i, all[i].0);
  }

  // -------------------------------------------------------------- the vector

  /** The vector has the entry, unless the hook sets the key itself. */
  ghost predicate Exports(hook: HookConfig, out: seq<string>, key: string, value: string) {
    (forall i :: 0 <= i < |hook.env| ==> hook.env[i].0 != key) ==> key + "=" + value in out
  }

  lemma InVector(hook: HookConfig, vars: HookVars, user: string, home: string, out: seq<string>, k: string)
    requires EnvOutcome(hook, vars, user, home, Ok(out))
    ensures RenderAll(hook.env, vars).Ok?
    ensures var env := MapOf(BaseEntries(hook.stage, vars, user, home) + RenderAll(hook.env, vars).value);
            k in env ==> k + "=" + env[k] in out
  {
    var env := MapOf(BaseEntries(hook.stage, vars, user, home) + RenderAll(hook.env, vars).value);
    var keys :| InOrder(keys, env.Keys) && Encodes(env, keys, Ok(out));
    if k in env {
      var i :| 0 <= i < |keys| && keys[i] == k;
      assert out[i] == Entry(keys[i], env[keys[i]]);
    }
  }

  lemma FixedExport(hook: HookConfig, vars: HookVars, user: string, home: string, out: seq<string>, i: nat)
    requires EnvOutcome(hook, vars, user, home, Ok(out)) && i < 16
    ensures |BaseEntries(hook.stage, vars, user, home)| == 16
    ensures Exports(hook, out, FixedKey(i), BaseEntries(hook.stage, vars, user, home)[i].1)
  {
    InVector(hook, vars, user, home, out, FixedKey(i));
    RenderKeepsKeys(hook.env, vars);
    if forall k :: 0 <= k < |hook.env| ==> hook.env[k].0 != FixedKey(i) {
      FixedEntryWins(hook.stage, vars, user, home, RenderAll(hook.env, vars).value, i);
    }
  }

  lemma FixedExports(hook: HookConfig, vars: HookVars, user: string, home: string, out: seq<string>)
    requires EnvOutcome(hook, vars, user, home, Ok(out))
    ensures Exports(hook, out, "PATH", "/usr/sbin:/usr/bin:/sbin:/bin") && Exports(hook, out, "LANG", "C.UTF-8")
    ensures Exports(hook, out, "HOME", home) && Exports(hook, out, "USER", user) && Exports(hook, out, "LOGNAME", user)
    ensures Exports(hook, out, "PAM_CERTAUTH_STAGE", StageName(hook.stage))
  {
    FixedExport(hook, vars, user, home, out, 0);
    FixedExport(hook, vars, user, home, out, 1);
    FixedExport(hook, vars, user, home, out, 2);
    FixedExport(hook, vars, user, home, out, 3);
    FixedExport(hook, vars, user, home, out, 4);
    FixedExport(hook, vars, user, home, out, 5);
  }

  ghost function ExportIndex(v: PlaceholderVar): nat {
    match v
    case PamUser => 6 case PamService => 7 case HostId => 8 case HostIdHash => 9 case HostIdSource => 10
    case CertCn => 11 case CertSerial => 12 case UsbSerial => 13 case UsbVidPid => 14 case SessionId => 15
  }

  lemma ExportedAt(stage: HookStage, vars: HookVars, user: string, home: string, v: PlaceholderVar)
    ensures |BaseEntries(stage, vars, user, home)| == 16 && FixedKey(ExportIndex(v)) == ExportKey(v)
    ensures BaseEntries(stage, vars, user, home)[ExportIndex(v)].1 == OrEmpty(vars.Resolve(v))
  {
  }

  /** The exported variable of a placeholder holds what the placeholder renders to, and is empty
      where the placeholder would not resolve. */
  lemma ExportsAgreeWithPlaceholders(
    hook: HookConfig, vars: HookVars, user: string, home: string, out: seq<string>, v: PlaceholderVar)
    requires EnvOutcome(hook, vars, user, home, Ok(out))
    ensures Exports(hook, out, ExportKey(v), OrEmpty(vars.Resolve(v)))
  {
    ExportedAt(hook.stage, vars, user, home, v);
    FixedExport(hook, vars, user, home, out, ExportIndex(v));
  }

  /** What a hook finds in its environment before authentication. */
  lemma PreAuthEnvironment(
    hook: HookConfig, pamUser: string, pamService: string, hostId: string, hostIdHash: string, hostIdSource: string,
    user: string, home: string, out: seq<string>)
    requires hook.stage.PreAuth?
    requires EnvOutcome(hook, ForPreAuth(pamUser, pamService, hostId, hostIdHash, hostIdSource), user, home, Ok(out))
    ensures Exports(hook, out, "HOME", home) && Exports(hook, out, "USER", user) && Exports(hook, out, "LOGNAME", user)
    ensures Exports(hook, out, "PAM_CERTAUTH_STAGE", "pre_auth")
    ensures Exports(hook, out, "PAM_CERTAUTH_USER", pamUser) && Exports(hook, out, "PAM_CERTAUTH_SERVICE", pamService)
    ensures Exports(hook, out, "PAM_CERTAUTH_HOST_ID", hostId) && Exports(hook, out, "PAM_CERTAUTH_HOST_ID_HASH", hostIdHash)
    ensures Exports(hook, out, "PAM_CERTAUTH_HOST_ID_SOURCE", hostIdSource)
    ensures Exports(hook, out, "PAM_CERTAUTH_CERT_CN", "") && Exports(hook, out, "PAM_CERTAUTH_CERT_SERIAL", "")
    ensures Exports(hook, out, "PAM_CERTAUTH_USB_SERIAL", "") && Exports(hook, out, "PAM_CERTAUTH_USB_VID_PID", "")
    ensures Exports(hook, out, "PAM_CERTAUTH_SESSION_ID", "")
  {
    var vars := ForPreAuth(pamUser, pamService, hostId, hostIdHash, hostIdSource);
    FixedExports(hook, vars, user, home, out);
    forall v ensures Exports(hook, out, ExportKey(v), OrEmpty(vars.Resolve(v))) {
      ExportsAgreeWithPlaceholders(hook, vars, user, home, out, v);
    }
    AllKeys(hook, vars, out);
  }

  /** What a hook finds there from then on; the host id stands for its hash too. */
  lemma SessionEnvironment(
    hook: HookConfig, pamUser: string, ctx: AuthContext, user: string, home: string, out: seq<string>)
    requires EnvOutcome(hook, ForSessionLike(hook.stage, pamUser, ctx), user, home, Ok(out))
    ensures Exports(hook, out, "HOME", home) && Exports(hook, out, "USER", user) && Exports(hook, out, "LOGNAME", user)
    ensures hook.stage == PostAuthSuccess ==> Exports(hook, out, "PAM_CERTAUTH_STAGE", "post_auth_success")
    ensures hook.stage == SessionOpen ==> Exports(hook, out, "PAM_CERTAUTH_STAGE", "session_open")
    ensures hook.stage == SessionClose ==> Exports(hook, out, "PAM_CERTAUTH_STAGE", "session_close")
    ensures hook.stage == UsbRemoved ==> Exports(hook, out, "PAM_CERTAUTH_STAGE", "usb_removed")
    ensures Exports(hook, out, "PAM_CERTAUTH_USER", pamUser) && Exports(hook, out, "PAM_CERTAUTH_SERVICE", ctx.pamService)
    ensures Exports(hook, out, "PAM_CERTAUTH_HOST_ID", ctx.hostId) && Exports(hook, out, "PAM_CERTAUTH_HOST_ID_HASH", ctx.hostId)
    ensures Exports(hook, out, "PAM_CERTAUTH_HOST_ID_SOURCE", ctx.hostIdSource)
    ensures Exports(hook, out, "PAM_CERTAUTH_CERT_CN", OrEmpty(ctx.certCn))
    ensures Exports(hook, out, "PAM_CERTAUTH_CERT_SERIAL", OrEmpty(ctx.certSerial))
    ensures Exports(hook, out, "PAM_CERTAUTH_USB_SERIAL", OrEmpty(ctx.usbSerial))
    ensures Exports(hook, out, "PAM_CERTAUTH_USB_VID_PID", OrEmpty(ctx.usbVidPid))
    ensures Exports(hook, out, "PAM_CERTAUTH_SESSION_ID", ctx.sessionId)
  {
    var vars := ForSessionLike(hook.stage, pamUser, ctx);
    FixedExports(hook, vars, user, home, out);
    forall v ensures Exports(hook, out, ExportKey(v), OrEmpty(vars.Resolve(v))) {
      ExportsAgreeWithPlaceholders(hook, vars, user, home, out, v);
    }
    AllKeys(hook, vars, out);
  }

  /** The placeholder exports, key by key. */
  lemma AllKeys(hook: HookConfig, vars: HookVars, out: seq<string>)
    requires forall v :: Exports(hook, out, ExportKey(v), OrEmpty(vars.Resolve(v)))
    ensures Exports(hook, out, "PAM_CERTAUTH_USER", OrEmpty(vars.pamUser))
    ensures Exports(hook, out, "PAM_CERTAUTH_SERVICE", OrEmpty(vars.pamService))
    ensures Exports(hook, out, "PAM_CERTAUTH_HOST_ID", OrEmpty(vars.hostId))
    ensures Exports(hook, out, "PAM_CERTAUTH_HOST_ID_HASH", OrEmpty(vars.hostIdHash))
    ensures Exports(hook, out, "PAM_CERTAUTH_HOST_ID_SOURCE", OrEmpty(vars.hostIdSource))
    ensures Exports(hook, out, "PAM_CERTAUTH_CERT_CN", OrEmpty(vars.certCn))
    ensures Exports(hook, out, "PAM_CERTAUTH_CERT_SERIAL", OrEmpty(vars.certSerial))
    ensures Exports(hook, out, "PAM_CERTAUTH_USB_SERIAL", OrEmpty(vars.usbSerial))
    ensures Exports(hook, out, "PAM_CERTAUTH_USB_VID_PID", OrEmpty(vars.usbVidPid))
    ensures Exports(hook, out, "PAM_CERTAUTH_SESSION_ID", OrEmpty(vars.sessionId))
  {
    assert Exports(hook, out, ExportKey(PamUser), OrEmpty(vars.Resolve(PamUser)));
    assert Exports(hook, out, ExportKey(PamService), OrEmpty(vars.Resolve(PamService)));
    assert Exports(hook, out, ExportKey(HostId), OrEmpty(vars.Resolve(HostId)));
    assert Exports(hook, out, ExportKey(HostIdHash), OrEmpty(vars.Resolve(HostIdHash)));
    assert Exports(hook, out, ExportKey(HostIdSource), OrEmpty(vars.Resolve(HostIdSource)));
    assert Exports(hook, out, ExportKey(CertCn), OrEmpty(vars.Resolve(CertCn)));
    assert Exports(hook, out, ExportKey(CertSerial), OrEmpty(vars.Resolve(CertSerial)));
    assert Exports(hook, out, ExportKey(UsbSerial), OrEmpty(vars.Resolve(UsbSerial)));
    assert Exports(hook, out, ExportKey(UsbVidPid), OrEmpty(vars.Resolve(UsbVidPid)));
    assert Exports(hook, out, ExportKey(SessionId), OrEmpty(vars.Resolve(SessionId)));
  }

  // ------------------------------------------------------ the hook's own part

  /** The template's literals and values, one after the other. */
  function Rendered(parts: seq<Part>, vars: HookVars): string {
    Concat(PartTexts(parts, v => vars.Resolve(v)))
  }

  lemma {:induction false} RenderAllTexts(env: Entries<seq<Part>>, vars: HookVars)
    requires RenderAll(env, vars).Ok?
    ensures var out := RenderAll(env, vars).value;
            |out| == |env| && forall i :: 0 <= i < |env| ==> out[i] == (env[i].0, Rendered(env[i].1, vars))
  {
    if env != [] {
      RenderAllTexts(env[..|env| - 1], vars);
      RenderIsConcat(env[|env| - 1].1, v => vars.Resolve(v));
    }
  }

  /** Each key a hook sets holds the text of its last template for it, whatever was there before. */
  lemma CustomExport(hook: HookConfig, vars: HookVars, user: string, home: string, out: seq<string>, i: nat)
    requires EnvOutcome(hook, vars, user, home, Ok(out))
    requires i < |hook.env| && forall j :: i < j < |hook.env| ==> hook.env[j].0 != hook.env[i].0
    ensures hook.env[i].0 + "=" + Rendered(hook.env[i].1, vars) in out
  {
    var k := hook.env[i].0;
    InVector(hook, vars, user, home, out, k);
    RenderAllTexts(hook.env, vars);
    LastOfCustom(BaseEntries(hook.stage, vars, user, home), RenderAll(hook.env, vars).value, i);
  }

  lemma LastOfCustom(base: Entries<string>, custom: Entries<string>, i: nat)
    requires i < |custom| && forall j :: i < j < |custom| ==> custom[j].0 != custom[i].0
    ensures custom[i].0 in MapOf(base + custom) && MapOf(base + custom)[custom[i].0] == custom[i].1
  {
    var (all, n) := (base + custom, |base| + i);
    assert all[n] == custom[i];
    forall j | n < j < |all| ensures all[j].0 != all[n].0 {
      assert all[j] == custom[j - |base|];
    }
    LastWriterWins(all, all[n].0);
    assert LastWrite(all, n, all[n].0);
  }
}

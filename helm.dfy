/** Provisioning and teardown through the package manager and the cluster
    tool. Commands are oracles keyed by their full argument vector; random
    draws are an oracle sequence of indices below 70 (or errors). */
module Helm {
  import opened Common
  import opened GoStrings
  import opened Models

  const WooCommerceChart := "../charts/woocommerce"
  const MedusaChart := "../charts/medusa"
  const DefaultValuesFile := "../charts/woocommerce/values-local.yaml"
  const MedusaValuesFile := "../charts/medusa/values-local.yaml"

  /** The fixed admin password handed to every store. */
  const AdminPassword := "password123"
  const PasswordLength := 16
  const Charset := "abcdefghijklmnopqrstuvwxyzABCDEFGHIJKLMNOPQRSTUVWXYZ0123456789!@#$%^&*"

  /** The environment `ProvisionStore` reads: the resolved kubeconfig path,
      `DOMAIN_SUFFIX` and `HELM_VALUES_FILE` (empty when unset). */
  datatype Env = Env(kubeconfig: string, domainSuffix: string, valuesFile: string)

  /** How a `helm upgrade --install` run ends. */
  datatype InstallResult = Exited(err: Option<string>) | TimedOut
  type Installer = seq<string> -> InstallResult
  /** The error (if any) of running a command to completion. */
  type Exec = seq<string> -> Option<string>

  /** The chart: medusa for "medusa", woocommerce for every other type. */
  function ChartPath(storeType: string): (c: string)
    ensures c == MedusaChart <==> storeType == Medusa
    ensures c == MedusaChart || c == WooCommerceChart
  {
    if storeType == Medusa then MedusaChart else WooCommerceChart
  }

  /** The values file: `HELM_VALUES_FILE` whenever it is set, for any type,
      else the chart's own `values-local.yaml`. */
  function ValuesFile(storeType: string, envValues: string): (v: string)
    ensures envValues != "" ==> v == envValues
    ensures envValues == "" ==> v == ChartPath(storeType) + "/values-local.yaml"
  {
    if storeType == Medusa then
      MedusaValuesInChart();
      if envValues == "" then MedusaValuesFile else envValues
    else
      DefaultValuesInChart();
      if envValues == "" then DefaultValuesFile else envValues
  }

  lemma MedusaValuesInChart()
    ensures MedusaValuesFile == MedusaChart + "/values-local.yaml"
  {
  }

  lemma DefaultValuesInChart()
    ensures DefaultValuesFile == WooCommerceChart + "/values-local.yaml"
  {
  }

  /** The start of the install command: `helm upgrade --install` with
      release name and target namespace both the store's namespace, the
      chosen chart, kubeconfig and values file. */
  function InstallHead(store: Store, env: Env): (h: seq<string>)
    ensures |h| == 12
    ensures h[0] == "helm" && h[1] == "upgrade" && h[2] == "--install"
    ensures h[3] == store.namespace && h[4] == ChartPath(store.storeType)
    ensures h[5] == "--kubeconfig" && h[6] == env.kubeconfig
    ensures h[7] == "--namespace" && h[8] == store.namespace && h[9] == "--create-namespace"
    ensures h[10] == "--values" && h[11] == ValuesFile(store.storeType, env.valuesFile)
  {
    var chart := ChartPath(store.storeType);
    var values := ValuesFile(store.storeType, env.valuesFile);
    ["helm", "upgrade", "--install", store.namespace, chart,
     "--kubeconfig", env.kubeconfig,
     "--namespace", store.namespace,
     "--create-namespace",
     "--values", values]
  }

  /** The five `--set` pairs that end the install command. */
  function InstallSettings(host: string, rootPass: string, dbPass: string): (t: seq<string>)
    ensures |t| == 10
    ensures t[0] == "--set" && t[2] == "--set" && t[4] == "--set" && t[6] == "--set" && t[8] == "--set"
    ensures t[1] == "ingress.hosts[0].host=" + host
    ensures t[3] == "mariadb.auth.rootPassword=" + rootPass
    ensures t[5] == "mariadb.auth.password=" + dbPass
    ensures t[7] == "wordpress.db.password=" + dbPass
    ensures t[9] == "wordpress.password=" + AdminPassword
  {
    ["--set", "ingress.hosts[0].host=" + host,
     "--set", "mariadb.auth.rootPassword=" + rootPass,
     "--set", "mariadb.auth.password=" + dbPass,
     "--set", "wordpress.db.password=" + dbPass,
     "--set", "wordpress.password=" + AdminPassword]
  }

  /** The full command line of the install. */
  function InstallArgv(store: Store, env: Env, rootPass: string, dbPass: string): (argv: seq<string>)
    ensures |argv| == 22
    ensures argv[..12] == InstallHead(store, env)
    ensures argv[12..] == InstallSettings(Host(store.namespace, env.domainSuffix), rootPass, dbPass)
  {
    InstallHead(store, env) + InstallSettings(Host(store.namespace, env.domainSuffix), rootPass, dbPass)
  }

  /** The value helm assigns to `key` from a command line: that of the last
      `--set key=value` pair (a later `--set` overrides an earlier one). */
  function SetValue(argv: seq<string>, key: string): Option<string>
  {
    if |argv| < 2 then None
    else
      var later := SetValue(argv[1..], key);
      if later.Some? then later
      else if argv[0] == "--set" && HasPrefix(argv[1], key + "=") then Some(argv[1][|key| + 1..])
      else None
  }

  /** Without any later `key=` argument, nothing sets `key`. */
  lemma {:induction false} NoSetAfter(argv: seq<string>, key: string)
    requires forall k :: 1 <= k < |argv| ==> !HasPrefix(argv[k], key + "=")
    ensures SetValue(argv, key) == None
    decreases |argv|
  {
    if |argv| >= 2 {
      NoSetAfter(argv[1..], key);
    }
  }

  /** A `--set key=v` pair with no later pair for `key` decides its value. */
  lemma SetValueLast(argv: seq<string>, key: string, i: nat)
    requires i + 1 < |argv| && argv[i] == "--set" && HasPrefix(argv[i + 1], key + "=")
    requires SetValue(argv[i + 1..], key) == None
    ensures SetValue(argv, key) == Some(argv[i + 1][|key| + 1..])
  {
    assert argv[i..][1..] == argv[i + 1..];
    SetValueSuffix(argv, key, i);
  }

  /** A string that differs from `key + "="` at position `c` does not set `key`. */
  lemma NotSettingAt(s: string, key: string, c: nat)
    requires c < |s| && c <= |key| && s[c] != (key + "=")[c]
    ensures !HasPrefix(s, key + "=")
  {
  }

  /** The ingress host is the store's namespace under the domain suffix. */
  lemma IngressHostSetting(store: Store, env: Env, rootPass: string, dbPass: string)
    ensures SetValue(InstallArgv(store, env, rootPass, dbPass), "ingress.hosts[0].host")
            == Some(Host(store.namespace, env.domainSuffix))
  {
    var argv := InstallArgv(store, env, rootPass, dbPass);
    var sets := InstallSettings(Host(store.namespace, env.domainSuffix), rootPass, dbPass);
    assert forall j :: 12 <= j < 22 ==> argv[j] == sets[j - 12];
    var key := "ingress.hosts[0].host";
    forall j | 14 <= j < 22
      ensures !HasPrefix(argv[j], key + "=")
    {
      NotSettingAt(argv[j], key, 0);
    }
    NoSetAfter(argv[13..], key);
    SetValueLast(argv, key, 12);
  }

  /** The root password is set once, for MariaDB's root account. */
  lemma RootPasswordSetting(store: Store, env: Env, rootPass: string, dbPass: string)
    ensures SetValue(InstallArgv(store, env, rootPass, dbPass), "mariadb.auth.rootPassword") == Some(rootPass)
  {
    var argv := InstallArgv(store, env, rootPass, dbPass);
    var sets := InstallSettings(Host(store.namespace, env.domainSuffix), rootPass, dbPass);
    assert forall j :: 12 <= j < 22 ==> argv[j] == sets[j - 12];
    var key := "mariadb.auth.rootPassword";
    forall j | 16 <= j < 22
      ensures !HasPrefix(argv[j], key + "=")
    {
      if j == 17 {
        NotSettingAt(argv[j], key, 13);
      } else {
        NotSettingAt(argv[j], key, 0);
      }
    }
    NoSetAfter(argv[15..], key);
    SetValueLast(argv, key, 14);
  }

  /** The generated database password is set for the MariaDB user. */
  lemma DbPasswordSetting(store: Store, env: Env, rootPass: string, dbPass: string)
    ensures SetValue(InstallArgv(store, env, rootPass, dbPass), "mariadb.auth.password") == Some(dbPass)
  {
    var argv := InstallArgv(store, env, rootPass, dbPass);
    var sets := InstallSettings(Host(store.namespace, env.domainSuffix), rootPass, dbPass);
    assert forall j :: 12 <= j < 22 ==> argv[j] == sets[j - 12];
    var key := "mariadb.auth.password";
    forall j | 18 <= j < 22
      ensures !HasPrefix(argv[j], key + "=")
    {
      NotSettingAt(argv[j], key, 0);
    }
    NoSetAfter(argv[17..], key);
    SetValueLast(argv, key, 16);
  }

  /** The same database password is set for WordPress's connection. */
  lemma WordPressDbPasswordSetting(store: Store, env: Env, rootPass: string, dbPass: string)
    ensures SetValue(InstallArgv(store, env, rootPass, dbPass), "wordpress.db.password") == Some(dbPass)
  {
    var argv := InstallArgv(store, env, rootPass, dbPass);
    var sets := InstallSettings(Host(store.namespace, env.domainSuffix), rootPass, dbPass);
    assert forall j :: 12 <= j < 22 ==> argv[j] == sets[j - 12];
    var key := "wordpress.db.password";
    NotSettingAt(argv[20], key, 0);
    NotSettingAt(argv[21], key, 10);
    NoSetAfter(argv[19..], key);
    SetValueLast(argv, key, 18);
  }

  /** The admin password is the fixed literal, not a generated one. */
  lemma AdminPasswordSetting(store: Store, env: Env, rootPass: string, dbPass: string)
    ensures SetValue(InstallArgv(store, env, rootPass, dbPass), "wordpress.password") == Some(AdminPassword)
  {
    var argv := InstallArgv(store, env, rootPass, dbPass);
    var sets := InstallSettings(Host(store.namespace, env.domainSuffix), rootPass, dbPass);
    assert forall j :: 12 <= j < 22 ==> argv[j] == sets[j - 12];
    var key := "wordpress.password";
    NoSetAfter(argv[21..], key);
    SetValueLast(argv, key, 20);
  }

  /** A value assigned in a suffix of the command line stays assigned when
      the preceding arguments are added back, since later pairs win. */
  lemma {:induction false} SetValueSuffix(argv: seq<string>, key: string, i: nat)
    requires i <= |argv| && SetValue(argv[i..], key).Some?
    ensures SetValue(argv, key) == SetValue(argv[i..], key)
    decreases i
  {
    if i > 0 {
      assert argv[i - 1..][1..] == argv[i..];
      SetValueSuffix(argv, key, i - 1);
    } else {
      assert argv[0..] == argv;
    }
  }

  predicate DrawsInRange(draws: seq<Result<nat, string>>)
  {
    forall i :: 0 <= i < |draws| && draws[i].Ok? ==> draws[i].value < |Charset|
  }

  /** The password built from a sequence of draws: each drawn index picks a
      charset character; the first failed draw is the error. */
  function Password(draws: seq<Result<nat, string>>): (r: Result<string, string>)
    requires DrawsInRange(draws)
    ensures r.Ok? <==> forall i :: 0 <= i < |draws| ==> draws[i].Ok?
    ensures r.Ok? ==> |r.value| == |draws| && forall k :: 0 <= k < |draws| ==> r.value[k] == Charset[draws[k].value]
    ensures r.Err? ==> exists i :: 0 <= i < |draws| && draws[i] == Err(r.error)
  {
    if draws == [] then Ok("")
    else
      var init := Password(draws[..|draws| - 1]);
      assert forall i :: 0 <= i < |draws| - 1 ==> draws[..|draws| - 1][i] == draws[i];
      if init.Err? then init
      else match draws[|draws| - 1]
        case Err(e) => Err(e)
        case Ok(x) => Ok(init.value + [Charset[x]])
  }

  /** Every character of a generated password is from the charset. */
  lemma PasswordAlphabet(draws: seq<Result<nat, string>>)
    requires DrawsInRange(draws) && Password(draws).Ok?
    ensures forall c :: c in Password(draws).value ==> c in Charset
  {
    var p := Password(draws).value;
    forall c | c in p ensures c in Charset {
      var k :| 0 <= k < |p| && p[k] == c;
      assert p[k] == Charset[draws[k].value];
    }
  }

  /** `generateSecurePassword(length)`, drawing from `draws` in order. */
  method GenerateSecurePassword(length: nat, draws: seq<Result<nat, string>>) returns (r: Result<string, string>)
    requires length <= |draws| && DrawsInRange(draws)
    ensures r == Password(draws[..length])
  {
    var b := new char[length];
    var i := 0;
    while i < length
      invariant 0 <= i <= length
      invariant Password(draws[..i]) == Ok(b[..i])
    {
      assert draws[..i + 1][..i] == draws[..i];
      match draws[i]
      case Err(e) =>
        assert Password(draws[..i + 1]) == Err(e);
        PasswordErrSticks(draws[..length], i + 1);
        assert draws[..length][..i + 1] == draws[..i + 1];
        return Err(e);
      case Ok(x) =>
        ghost var done := b[..i];
        b[i] := Charset[x];
        assert b[..i + 1] == done + [Charset[x]];
        assert draws[..i + 1][i] == Ok(x);
        i := i + 1;
    }
    assert draws[..length] == draws[..i] && b[..] == b[..i];
    return Ok(b[..]);
  }

  /** Once a prefix of the draws fails, so does every longer prefix. */
  lemma {:induction false} PasswordErrSticks(draws: seq<Result<nat, string>>, i: nat)
    requires DrawsInRange(draws) && i <= |draws| && Password(draws[..i]).Err?
    ensures Password(draws) == Password(draws[..i])
    decreases |draws| - i
  {
    if i < |draws| {
      assert draws[..i + 1][..i] == draws[..i];
      PasswordErrSticks(draws, i + 1);
    } else {
      assert draws[..i] == draws;
    }
  }

  /** What a `ProvisionStore` call did: the install command it ran (none when
      password generation failed first) and the error it returned. */
  datatype Provisioned = Provisioned(invoked: Option<seq<string>>, err: Option<string>)

  /** The error returned for each way the install run ends. */
  function InstallError(store: Store, result: InstallResult): (e: Option<string>)
    ensures e.None? <==> result == Exited(None)
    ensures result.Exited? && result.err.Some? ==> e == Some("helm install failed: " + result.err.value)
    ensures result.TimedOut? ==> e == Some("helm install timed out after 5 minutes for store " + store.id)
  {
    match result
    case Exited(None) => None
    case Exited(Some(e)) => Some("helm install failed: " + e)
    case TimedOut => Some("helm install timed out after 5 minutes for store " + store.id)
  }

  /** `ProvisionStore`: root password from the first 16 draws, database
      password from the next 16, then one install run. */
  function Provision(store: Store, env: Env, draws: seq<Result<nat, string>>, install: Installer): (p: Provisioned)
    requires 2 * PasswordLength <= |draws| && DrawsInRange(draws)
    ensures p.invoked.None? <==> Password(draws[..16]).Err? || Password(draws[16..32]).Err?
    ensures p.invoked.Some? ==> p.invoked.value == InstallArgv(store, env, Password(draws[..16]).value, Password(draws[16..32]).value)
    ensures p.err.None? <==> p.invoked.Some? && install(p.invoked.value) == Exited(None)
    ensures p.invoked.Some? ==> p.err == InstallError(store, install(p.invoked.value))
    ensures Password(draws[..16]).Err? ==>
      p.err == Some("failed to generate root password: " + Password(draws[..16]).error)
    ensures Password(draws[..16]).Ok? && Password(draws[16..32]).Err? ==>
      p.err == Some("failed to generate database password: " + Password(draws[16..32]).error)
  {
    var root := Password(draws[..16]);
    if root.Err? then Provisioned(None, Some("failed to generate root password: " + root.error))
    else
      var db := Password(draws[16..32]);
      if db.Err? then Provisioned(None, Some("failed to generate database password: " + db.error))
      else
        var argv := InstallArgv(store, env, root.value, db.value);
        Provisioned(Some(argv), InstallError(store, install(argv)))
  }

  /** When both passwords are generated they have 16 charset characters,
      which the install command sets as `RootPasswordSetting` and `DbPasswordSetting` state. */
  lemma ProvisionedCredentials(store: Store, env: Env, draws: seq<Result<nat, string>>, install: Installer)
    requires 2 * PasswordLength <= |draws| && DrawsInRange(draws)
    requires Provision(store, env, draws, install).invoked.Some?
    ensures var root := Password(draws[..16]).value;
      var db := Password(draws[16..32]).value;
      && |root| == 16 && |db| == 16
      && (forall c :: c in root ==> c in Charset) && (forall c :: c in db ==> c in Charset)
  {
    assert DrawsInRange(draws[..16]);
    assert DrawsInRange(draws[16..32]);
    PasswordAlphabet(draws[..16]);
    PasswordAlphabet(draws[16..32]);
  }

  method ProvisionStore(store: Store, env: Env, draws: seq<Result<nat, string>>, install: Installer)
      returns (invoked: Option<seq<string>>, err: Option<string>)
    requires 2 * PasswordLength <= |draws| && DrawsInRange(draws)
    ensures Provisioned(invoked, err) == Provision(store, env, draws, install)
  {
    var rootPass := GenerateSecurePassword(PasswordLength, draws);
    if rootPass.Err? {
      return None, Some("failed to generate root password: " + rootPass.error);
    }
    assert DrawsInRange(draws[16..]);
    var dbPass := GenerateSecurePassword(PasswordLength, draws[16..]);
    assert draws[16..][..16] == draws[16..32];
    if dbPass.Err? {
      return None, Some("failed to generate database password: " + dbPass.error);
    }
    var argv := InstallArgv(store, env, rootPass.value, dbPass.value);
    invoked := Some(argv);
    err := InstallError(store, install(argv));
  }

  /** `helm uninstall` of the store's release in its namespace. */
  function UninstallArgv(store: Store, kubeconfig: string): (argv: seq<string>)
    ensures |argv| == 7 && argv[0] == "helm" && argv[1] == "uninstall"
    ensures argv[2] == store.namespace && argv[3] == "--namespace" && argv[4] == store.namespace
    ensures argv[5] == "--kubeconfig" && argv[6] == kubeconfig
  {
    ["helm", "uninstall", store.namespace, "--namespace", store.namespace, "--kubeconfig", kubeconfig]
  }

  /** `kubectl delete namespace` of the store's namespace. */
  function NamespaceDeleteArgv(store: Store, kubeconfig: string): (argv: seq<string>)
    ensures |argv| == 6 && argv[0] == "kubectl" && argv[1] == "delete" && argv[2] == "namespace"
    ensures argv[3] == store.namespace && argv[4] == "--kubeconfig" && argv[5] == kubeconfig
  {
    ["kubectl", "delete", "namespace", store.namespace, "--kubeconfig", kubeconfig]
  }

  /** The error `DeleteStore` returns: that of the namespace deletion only. */
  function TeardownError(store: Store, kubeconfig: string, exec: Exec): (e: Option<string>)
    ensures e.Some? <==> exec(NamespaceDeleteArgv(store, kubeconfig)).Some?
  {
    match exec(NamespaceDeleteArgv(store, kubeconfig))
    case None => None
    case Some(e) => Some("failed to delete namespace: " + e)
  }

  /** Teardown removes what the install created: the uninstalled release is
      the installed one, and the deleted namespace is the one the release was
      installed into. */
  lemma TeardownMatchesInstall(store: Store, env: Env, rootPass: string, dbPass: string)
    ensures var install := InstallArgv(store, env, rootPass, dbPass);
      && UninstallArgv(store, env.kubeconfig)[2] == install[3]
      && UninstallArgv(store, env.kubeconfig)[4] == install[8]
      && NamespaceDeleteArgv(store, env.kubeconfig)[3] == install[8]
  {
    var install := InstallArgv(store, env, rootPass, dbPass);
    assert install[3] == InstallHead(store, env)[3] && install[8] == InstallHead(store, env)[8];
  }

  /** A failed uninstall never changes the outcome of a teardown. */
  lemma UninstallFailureTolerated(store: Store, kubeconfig: string, exec: Exec, exec': Exec)
    requires exec(NamespaceDeleteArgv(store, kubeconfig)) == exec'(NamespaceDeleteArgv(store, kubeconfig))
    ensures TeardownError(store, kubeconfig, exec) == TeardownError(store, kubeconfig, exec')
  {
  }

  /** `DeleteStore`: uninstall the release, then delete the namespace, both
      always attempted in that order. */
  method DeleteStore(store: Store, kubeconfig: string, exec: Exec) returns (invoked: seq<seq<string>>, err: Option<string>)
    ensures invoked == [UninstallArgv(store, kubeconfig), NamespaceDeleteArgv(store, kubeconfig)]
    ensures err == TeardownError(store, kubeconfig, exec)
  {
    var uninstall := UninstallArgv(store, kubeconfig);
    var uninstallErr := exec(uninstall);
    invoked := [uninstall];
    // An uninstall failure is only logged; the namespace deletion runs anyway.
    var nsDelete := NamespaceDeleteArgv(store, kubeconfig);
    var nsErr := exec(nsDelete);
    invoked := invoked + [nsDelete];
    if nsErr.Some? {
      return invoked, Some("failed to delete namespace: " + nsErr.value);
    }
    err := None;
  }
}

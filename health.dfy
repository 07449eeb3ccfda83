/** Store health probing and the phase inspection used by reconciliation.
    The HTTP client and `kubectl` are oracles: a `Fetcher` gives the outcome
    of a GET on a URL, a `Query` the combined output (or the error) of a
    command line. */
module Health {
  import opened Common
  import opened GoStrings
  import opened Models

  datatype FetchResult = TransportError(err: string) | Response(statusCode: int)
  type Fetcher = string -> FetchResult
  type Query = seq<string> -> Result<string, string>

  /** Go's `(bool, error)` answer of a health check. */
  datatype Probe = Probe(healthy: bool, err: Option<string>)

  /** The URL probed for a store, or `None` for an unknown type. */
  function ProbeUrl(store: Store): (u: Option<string>)
    ensures u.Some? <==> KnownType(store.storeType)
    ensures store.storeType == WooCommerce ==> u == Some(store.url)
    ensures store.storeType == Medusa ==> u == Some(store.url + "/health")
  {
    if store.storeType == WooCommerce then Some(store.url)
    else if store.storeType == Medusa then Some(store.url + "/health")
    else None
  }

  /** `checkWooCommerceHealth` and `checkMedusaHealth`, which differ only in
      the URL: healthy exactly when the answer is status 200; a transport
      error or any other status is `(false, error)`. */
  function CheckEndpoint(url: string, fetch: Fetcher): (p: Probe)
    ensures p.healthy <==> fetch(url) == Response(200)
    ensures p.healthy <==> p.err.None?
    ensures fetch(url).TransportError? ==> p.err == Some(fetch(url).err)
  {
    match fetch(url)
    case TransportError(e) => Probe(false, Some(e))
    case Response(code) =>
      if code == 200 then Probe(true, None)
      else Probe(false, Some("unexpected status code: " + Itoa(code)))
  }

  /** `CheckStoreHealth`: dispatch on the store type; `(true, error)` never
      occurs. */
  function CheckStoreHealth(store: Store, fetch: Fetcher): (p: Probe)
    ensures p.healthy <==> p.err.None?
    ensures p.healthy <==> ProbeUrl(store).Some? && fetch(ProbeUrl(store).value) == Response(200)
    ensures !KnownType(store.storeType) ==> p == Probe(false, Some("unknown store type: " + store.storeType))
  {
    if store.storeType == WooCommerce then CheckEndpoint(store.url, fetch)
    else if store.storeType == Medusa then CheckEndpoint(store.url + "/health", fetch)
    else Probe(false, Some("unknown store type: " + store.storeType))
  }

  /** The probe never looks at any URL but the type's own. */
  lemma ProbeUsesOnlyTypeUrl(store: Store, f: Fetcher, g: Fetcher)
    requires KnownType(store.storeType) && f(ProbeUrl(store).value) == g(ProbeUrl(store).value)
    ensures CheckStoreHealth(store, f) == CheckStoreHealth(store, g)
  {
  }

  /** The `kubectl get pods` command line of the phase query. The selector
      is the WordPress one for every store type. */
  function PodStatusArgv(store: Store, kubeconfig: string): (argv: seq<string>)
    ensures |argv| == 11 && argv[0] == "kubectl" && argv[1] == "get" && argv[2] == "pods"
    ensures argv[3] == "--namespace" && argv[4] == store.namespace
    ensures argv[5] == "--selector" && argv[6] == "app.kubernetes.io/name=wordpress"
    ensures argv[9] == "--kubeconfig" && argv[10] == kubeconfig
  {
    ["kubectl", "get", "pods",
     "--namespace", store.namespace,
     "--selector", "app.kubernetes.io/name=wordpress",
     "--output", "jsonpath={.items[*].status.phase}",
     "--kubeconfig", kubeconfig]
  }

  predicate Preferred(phase: string)
  {
    phase == "Running" || phase == "Pending"
  }

  /** The first `Running` or `Pending` entry of `phases`, if any. */
  function FirstPreferred(phases: seq<string>): (r: Option<string>)
    ensures r.None? <==> forall k :: 0 <= k < |phases| ==> !Preferred(phases[k])
    ensures r.Some? ==> Preferred(r.value) && r.value in phases
    ensures forall k :: 0 <= k < |phases| && Preferred(phases[k]) && (forall j :: 0 <= j < k ==> !Preferred(phases[j]))
              ==> r == Some(phases[k])
  {
    if phases == [] then None
    else if Preferred(phases[0]) then Some(phases[0])
    else
      var r := FirstPreferred(phases[1..]);
      assert forall k :: 1 <= k < |phases| ==> phases[k] == phases[1..][k - 1];
      r
  }

  /** The phase `GetStorePodStatus` reports for a list of pod phases. */
  function SelectPhase(phases: seq<string>): (p: string)
    ensures phases == [] ==> p == "Unknown"
    ensures phases != [] ==> p in phases
    ensures FirstPreferred(phases).Some? ==> p == FirstPreferred(phases).value
    ensures phases != [] && FirstPreferred(phases).None? ==> p == phases[0]
  {
    if phases == [] then "Unknown"
    else match FirstPreferred(phases)
      case Some(p) => p
      case None => phases[0]
  }

  /** What `GetStorePodStatus` returns for the query's outcome. */
  function ObservedPhase(output: Result<string, string>): (r: Result<string, string>)
    ensures output.Err? ==> r == Err(output.error)
    ensures output.Ok? ==> r.Ok? && (r.value == "Unknown" || r.value in Fields(TrimSpace(output.value)))
  {
    match output
    case Err(e) => Err(e)
    case Ok(out) => Ok(SelectPhase(Fields(TrimSpace(out))))
  }

  /** `Unknown` is reported for a blank output, and otherwise some word of it. */
  lemma ObservedPhaseIsAField(out: string)
    ensures var fs := Fields(TrimSpace(out));
      && (AllSpace(out) ==> ObservedPhase(Ok(out)) == Ok("Unknown"))
      && (!AllSpace(out) ==> ObservedPhase(Ok(out)).value in fs)
  {
  }

  /** `GetStorePodStatus`: run the query, split its output into fields and
      return the first `Running` or `Pending`, else the first field. */
  method GetStorePodStatus(store: Store, kubeconfig: string, kubectl: Query) returns (r: Result<string, string>)
    ensures r == ObservedPhase(kubectl(PodStatusArgv(store, kubeconfig)))
  {
    var output := kubectl(PodStatusArgv(store, kubeconfig));
    if output.Err? {
      return Err(output.error);
    }
    var phases := Fields(TrimSpace(output.value));
    if |phases| == 0 {
      return Ok("Unknown");
    }
    for i := 0 to |phases|
      invariant FirstPreferred(phases) == FirstPreferred(phases[i..])
    {
      if phases[i] == "Running" {
        return Ok("Running");
      }
      if phases[i] == "Pending" {
        return Ok("Pending");
      }
      assert phases[i..][1..] == phases[i + 1..];
    }
    return Ok(phases[0]);
  }

  /** The phase-to-status table; a phase outside it maps to "". */
  function ExpectedStatus(phase: string): (s: string)
    ensures s == "" <==> phase !in {"Running", "Pending", "Failed", "Unknown"}
    ensures phase == "Running" ==> s == Ready
    ensures phase == "Pending" ==> s == Provisioning
    ensures phase == "Failed" ==> s == Failed
    ensures phase == "Unknown" ==> s == Provisioning
  {
    var table := map["Running" := Ready, "Pending" := Provisioning, "Failed" := Failed, "Unknown" := Provisioning];
    if phase in table then table[phase] else ""
  }

  /** What reconciling one store finds. */
  datatype Outcome = InSync | Drift(expected: string) | ProbeFailed(error: string)

  /** The finding of `ReconcileStoreStatus` for `store`: the query's error,
      or the status the observed phase calls for when it differs from the
      stored one. */
  function Reconciled(store: Store, kubeconfig: string, kubectl: Query): (o: Outcome)
    ensures var q := kubectl(PodStatusArgv(store, kubeconfig));
      && (q.Err? ==> o == ProbeFailed(q.error))
      && (q.Ok? ==> var e := ExpectedStatus(ObservedPhase(q).value);
                    && (o.Drift? <==> e != store.status)
                    && (o.Drift? ==> o.expected == e)
                    && !o.ProbeFailed?)
  {
    var q := kubectl(PodStatusArgv(store, kubeconfig));
    if q.Err? then ProbeFailed(q.error)
    else
      var e := ExpectedStatus(ObservedPhase(q).value);
      if e != store.status then Drift(e) else InSync
  }

  lemma RunningTrimmed()
    ensures TrimSpace("Running") == "Running"
  {
    assert LeadingSpaces("Running") == 0;
    assert TrailingSpaces("Running") == 0;
  }

  /** A single running pod is observed as `Running`. */
  lemma SingleRunningPod()
    ensures ObservedPhase(Ok("Running")) == Ok("Running")
  {
    RunningTrimmed();
    FieldsOfWord("Running");
    assert FirstPreferred(["Running"]) == Some("Running");
  }

  /** A store still marked `Provisioning` whose pod reports `Running` is
      found to be due for `Ready`. */
  lemma RunningPodMeansReady(store: Store, kubeconfig: string, kubectl: Query)
    requires store.status == Provisioning
    requires kubectl(PodStatusArgv(store, kubeconfig)) == Ok("Running")
    ensures Reconciled(store, kubeconfig, kubectl) == Drift(Ready)
  {
    SingleRunningPod();
  }

  /** `ReconcileStoreStatus`: runs the phase query and reports what it finds.
      The drift is only logged; nothing is written. */
  method ReconcileStoreStatus(store: Store, kubeconfig: string, kubectl: Query) returns (o: Outcome)
    ensures o == Reconciled(store, kubeconfig, kubectl)
  {
    var phase := GetStorePodStatus(store, kubeconfig, kubectl);
    if phase.Err? {
      return ProbeFailed(phase.error);
    }
    var expected := ExpectedStatus(phase.value);
    if expected != store.status {
      return Drift(expected);
    }
    return InSync;
  }

  /** `WaitForStoreReady`, given the fetch outcomes at each ten-second tick
      that fires before the deadline: it returns at the first tick whose
      probe is healthy; probe errors and unhealthy answers keep it waiting;
      after the last tick it reports the timeout. `ticks` counts the ticks
      it waited for. */
  method WaitForStoreReady(store: Store, fetches: seq<Fetcher>) returns (err: Option<string>, ticks: nat)
    ensures ticks <= |fetches|
    ensures err.None? <==> exists i :: 0 <= i < |fetches| && CheckStoreHealth(store, fetches[i]).healthy
    ensures err.None? ==> 0 < ticks && CheckStoreHealth(store, fetches[ticks - 1]).healthy
    ensures forall i :: 0 <= i < ticks - 1 ==> !CheckStoreHealth(store, fetches[i]).healthy
    ensures err.Some? ==> ticks == |fetches| && err.value == "timeout waiting for store " + store.id + " to become ready"
  {
    ticks := 0;
    while ticks < |fetches|
      invariant ticks <= |fetches|
      invariant forall i :: 0 <= i < ticks ==> !CheckStoreHealth(store, fetches[i]).healthy
    {
      var probe := CheckStoreHealth(store, fetches[ticks]);
      ticks := ticks + 1;
      if probe.err.Some? {
        continue;
      }
      if probe.healthy {
        assert CheckStoreHealth(store, fetches[ticks - 1]).healthy;
        return None, ticks;
      }
    }
    assert forall i :: 0 <= i < |fetches| ==> !CheckStoreHealth(store, fetches[i]).healthy;
    err := Some("timeout waiting for store " + store.id + " to become ready");
  }
}

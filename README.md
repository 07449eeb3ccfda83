# Store orchestrator backend, modelled in Dafny

This project models the backend of a small store orchestrator. The backend is an HTTP API that creates and deletes
WooCommerce and Medusa shops. Each shop is a Helm release in its own Kubernetes namespace.
The model covers:

- the middleware chain in front of the API:
  - security headers;
  - the JSON content-type gate;
  - CORS;
  - a per-client token-bucket rate limiter;
- the store handlers and the store table they update;
- the two detached tasks that finish provisioning and teardown;
- the Helm and `kubectl` command lines and the secure password generator;
- the health probes, the pod-phase inspection and the reconciliation cycle.

The model works as follows:

- **Modules.** Each source file has a module: `RateLimiter`, `Stores` with `StoreHandler`, `Health`, `Helm`, `Cors`,
  `Security` and `Server` (for `main.go`). Helper modules give the record type (`Models`), HTTP constants (`Http`),
  `Option`/`Result` (`Common`) and the parts of Go's `strings` and `strconv` that the core relies on (`GoStrings`).
- **Classes where the code updates in place.**
  - The rate limiter is a class that holds a map of client limiter objects.
  - The store table is a class that holds a map from id to record.
  - Each method is proved against a pure transition function, and the properties are proved about those functions.
- **External effects are parameters.** These are:
  - the HTTP client (`Fetcher`);
  - `kubectl` queries (`Query`);
  - the Helm install run (`Installer`, which can time out);
  - other commands (`Exec`);
  - the cryptographic random source (a sequence of draws);
  - the clock (`now`, in milliseconds);
  - environment variables (plain strings).
- **Go arithmetic is written out.** The token refill is `int(elapsed.Minutes() * rate)`, which becomes
  `(elapsedMs * rate) / 60000` truncated toward zero. `string(rune(n))` keeps the low 32 bits and then gives a code point
  or U+FFFD.

## Model

| member | source | states |
|---|---|---|
| RateLimiter.TruncDiv | backend/middleware/rate_limiter.go:64 | Float-to-int conversion truncates toward zero: for a non-negative dividend the result is the largest q with q·b ≤ a, and for a negative one the smallest q with a ≤ q·b. |
| RateLimiter.DivBounds | backend/middleware/rate_limiter.go:64 | The quotient of a non-negative number brackets it, and is 0 below the divisor and at least 1 from it. |
| RateLimiter.Refill | backend/middleware/rate_limiter.go:61-71 | No whole token earned leaves the count as it was. Otherwise the earned tokens are added, capped at `burst`. The bucket bounds are preserved and tokens never decrease. |
| RateLimiter.Admit | backend/middleware/rate_limiter.go:58-84 | One request stamps `lastSeen := now`. It is allowed exactly when the refilled count is positive, and then costs exactly one token; a denied request costs nothing. The bounds are preserved. |
| RateLimiter.Request | backend/middleware/rate_limiter.go:35-89 | A first-time client starts with a full bucket. The caller's entry becomes `Admit` of its bucket, and the verdict is pass exactly when `Admit` allows, else 429. No other entry changes, and all buckets stay within bounds. |
| RateLimiter.Evict | backend/middleware/rate_limiter.go:96-107 | A cleanup pass keeps exactly the clients seen within the last 10 minutes, with their buckets unchanged. |
| RateLimiter.SameInstant | backend/middleware/rate_limiter.go:61-84 | Requests at the same instant earn nothing. The i-th is admitted exactly when i is below the tokens held. |
| RateLimiter.BurstThenDeny | backend/middleware/rate_limiter.go:44-84 | From a full bucket, `burst + 1` simultaneous requests admit `burst` and deny the last. |
| RateLimiter.OneIntervalRefills | backend/middleware/rate_limiter.go:61-75 | After one token's worth of time, a bucket within bounds admits a request. |
| RateLimiter.FractionalCreditLost | backend/middleware/rate_limiter.go:61-73 | Because `lastSeen` moves on every request, an empty bucket polled faster than one token interval is denied forever. |
| RateLimiter.ClientLimiter.constructor | backend/middleware/rate_limiter.go:49-52 | A new client limiter holds the given tokens and time. |
| RateLimiter.ClientLimiter.Take | backend/middleware/rate_limiter.go:58-85 | The in-place update of one limiter is exactly `Admit` on its old bucket. |
| RateLimiter.RateLimiter.constructor | backend/middleware/rate_limiter.go:26-32 | A new limiter has no clients and the given rate and burst. |
| RateLimiter.RateLimiter.LimiterFor | backend/middleware/rate_limiter.go:39-56 | A known client gets its existing limiter object. An unknown one gets a fresh full limiter stamped `now`, and only the table changes. |
| RateLimiter.RateLimiter.Middleware | backend/middleware/rate_limiter.go:35-89 | The verdict and the new client table are exactly `Request` on the old table. The limiter stays well formed. |
| RateLimiter.RateLimiter.CleanupExpiredClients | backend/middleware/rate_limiter.go:96-107 | The deletion loop leaves exactly `Evict` of the old table. |
| Stores.NamePattern | backend/handlers/store.go:50-51 | The whole name, at least one character, is drawn from letters, digits, RE2 `\s`, `-` and `_`. A matching name is non-empty ASCII. |
| Stores.ValidateCreate | backend/handlers/store.go:38-60 | A request is accepted iff both fields are present, the type is known, the name matches the pattern, and it is within 50 bytes raw and at least 2 bytes trimmed. A missing field is reported iff one is empty. An unknown type is reported iff every earlier check passed. |
| Stores.AcceptedName | backend/handlers/store.go:43-54 | An accepted name is ASCII with at most 50 characters. Its trimmed form keeps 2 or more name-alphabet characters. |
| Stores.NewRecord | backend/handlers/store.go:62-78 | The new record has the id, trimmed name and type of the request, status `Provisioning`, no error, namespace "store-" + the id's first 8 characters, URL `http://namespace.suffix` (suffix defaulting to localhost), and both timestamps `now`. |
| Stores.CreateStatus | backend/handlers/store.go:38-112 | The answer is 202 exactly for an accepted store, 400 exactly for a rejection and 500 exactly for a failed insert. |
| Stores.Create | backend/handlers/store.go:62-84 | A request is accepted iff it is valid and the id is new. A rejection is a validation failure, and the table is then unchanged. Otherwise exactly one record is inserted under the id: `Provisioning`, no error, trimmed name, the requested type, both timestamps `now`, `store-`+id[:8] namespace and `http://ns.suffix` URL. Keying and identity fields are preserved. |
| Stores.DeleteStatus | backend/handlers/store.go:119-163 | A missing store is 404, one already being deleted is 409, and a started deletion is 200, each exactly. |
| Stores.MarkDeleting | backend/handlers/store.go:115-142 | A missing id gets 404 and `Deleting` gets 409; both leave the table unchanged. Any other status (`DeletionFailed` included) becomes `Deleting` with a new updated-at. Other records are untouched. |
| Stores.FinishProvisioning | backend/handlers/store.go:87-110 | It writes `Ready` or `Failed`, the error and updated-at without looking at the current status. It never re-creates a deleted record, and other records and identity fields are unchanged. |
| Stores.FinishDeletion | backend/handlers/store.go:145-161 | Success removes the record. Failure keeps it as `DeletionFailed` with the error text. Other records are unchanged. |
| Stores.SecondDeleteConflicts | backend/handlers/store.go:128-142 | A second delete right after the first is answered 409 and changes nothing. |
| Stores.LateProvisioningReopensDelete | backend/handlers/store.go:101-105 | Provisioning that completes after a delete request turns `Deleting` back into `Ready`, so a further delete is accepted. |
| Stores.RetryAfterDeletionFailed | backend/handlers/store.go:148-155 | A store whose teardown failed can be deleted again. |
| Stores.TestShopTrimmed | backend/handlers/store.go:71 | Trimming "Test Shop" leaves it unchanged. |
| Stores.TestShopAccepted | backend/handlers/store.go:43-60 | "Test Shop" of type woocommerce passes every check. |
| Stores.CreateProvisionDelete | backend/handlers/store.go:32-164 | The end-to-end life of a store: 202 `Provisioning`, then `Ready` with no error, then 200 on delete, then gone after teardown. |
| StoreHandler.StoreTable.constructor | backend/handlers/store.go:22-24 | The handler starts over an empty, well-keyed table. |
| StoreHandler.StoreTable.CreateStore | backend/handlers/store.go:32-113 | The reply and new table are exactly `Create`, and the status code is `CreateStatus` of the reply. |
| StoreHandler.StoreTable.ProvisioningTask | backend/handlers/store.go:87-110 | The task's error is that of `Provision`. The table becomes `FinishProvisioning` with that error. |
| StoreHandler.StoreTable.DeleteStore | backend/handlers/store.go:115-164 | The status code and table are exactly `MarkDeleting`. A teardown is started (with the record's id and namespace) exactly when the answer is 200. |
| StoreHandler.StoreTable.DeletionTask | backend/handlers/store.go:145-161 | The task's error is that of the namespace deletion. The table becomes `FinishDeletion` with that error. |
| StoreHandler.StoreTable.CheckStoreHealth | backend/handlers/store.go:166-193 | A missing id gets 404. A probe error gets 503 with `healthy=false`. Otherwise the answer is 200 with the probe verdict and stored status, and that verdict is always true. |
| Health.ProbeUrl | backend/orchestrator/health.go:17-29 | A WooCommerce store is probed at its URL, a Medusa store at its URL + "/health", and any other type at none. |
| Health.CheckEndpoint | backend/orchestrator/health.go:31-52 | The result is healthy iff the answer is status 200, and healthy iff there is no error. A transport error is passed through. |
| Health.CheckStoreHealth | backend/orchestrator/health.go:17-29 | The result is healthy iff the type's URL answers 200, and `(true, error)` never occurs. An unknown type gives its fixed error. |
| Health.ProbeUsesOnlyTypeUrl | backend/orchestrator/health.go:54-76 | The verdict depends only on the answer at the type's own URL. |
| Health.PodStatusArgv | backend/orchestrator/health.go:86-90 | The query is `kubectl get pods` in the store's namespace, with the WordPress selector for every type and the given kubeconfig. |
| Health.FirstPreferred | backend/orchestrator/health.go:103-111 | The result is the first `Running` or `Pending` phase, and it is `None` iff there is none. |
| Health.SelectPhase | backend/orchestrator/health.go:98-113 | No pods gives `Unknown`. Otherwise the first preferred phase wins, and without one the first phase is reported. |
| Health.ObservedPhase | backend/orchestrator/health.go:92-113 | A failed query passes its error through. Otherwise the result is `Unknown` or a word of the trimmed output. |
| Health.ObservedPhaseIsAField | backend/orchestrator/health.go:98-113 | Blank output gives `Unknown`. Otherwise the result is a word of the output. |
| Health.SingleRunningPod | backend/orchestrator/health.go:98-107 | The output "Running" is observed as `Running`. |
| Health.GetStorePodStatus | backend/orchestrator/health.go:79-114 | The early-returning scan equals `ObservedPhase` of the query's output or error. |
| Health.ExpectedStatus | backend/orchestrator/health.go:155-160 | `Running` maps to `Ready`, `Pending` and `Unknown` to `Provisioning`, `Failed` to `Failed`, and any other phase to "". |
| Health.Reconciled | backend/orchestrator/health.go:146-172 | A failed query is reported as that error. Otherwise a drift is reported iff the expected status differs from the stored one, and it carries the expected status. |
| Health.RunningPodMeansReady | backend/orchestrator/health.go:155-163 | A `Provisioning` store whose pod reports `Running` is found to be due for `Ready`. |
| Health.ReconcileStoreStatus | backend/orchestrator/health.go:146-172 | The method's outcome is exactly `Reconciled`. |
| Health.WaitForStoreReady | backend/orchestrator/health.go:117-143 | It succeeds iff some tick's probe is healthy, at the first such tick. Otherwise it times out after the last tick with the fixed message. |
| Helm.ChartPath | backend/orchestrator/helm.go:39-50 | The Medusa chart is used exactly for type "medusa". |
| Helm.ValuesFile | backend/orchestrator/helm.go:37-50 | A set `HELM_VALUES_FILE` wins for every type. Otherwise the chart's `values-local.yaml` is used. |
| Helm.MedusaValuesInChart | backend/orchestrator/helm.go:41-43 | The Medusa values file lies in the Medusa chart. |
| Helm.DefaultValuesInChart | backend/orchestrator/helm.go:24-48 | The default values file lies in the WooCommerce chart. |
| Helm.InstallHead | backend/orchestrator/helm.go:68-72 | It is `helm upgrade --install`, with release name and namespace both the store namespace, the type's chart, the kubeconfig, `--create-namespace` and the chosen values file. |
| Helm.InstallSettings | backend/orchestrator/helm.go:73-77 | Five `--set` pairs: the ingress host, the root password, the database password twice and the fixed admin password. |
| Helm.InstallArgv | backend/orchestrator/helm.go:66-77 | The install command is the head followed by the settings for host `namespace.suffix`. |
| Helm.SetValueLast | backend/orchestrator/helm.go:68-77 | A `--set key=v` with no later setting of `key` decides its value. |
| Helm.IngressHostSetting | backend/orchestrator/helm.go:66-73 | The ingress host is `namespace.suffix`. |
| Helm.RootPasswordSetting | backend/orchestrator/helm.go:74 | MariaDB's root password is the first generated password. |
| Helm.DbPasswordSetting | backend/orchestrator/helm.go:75 | MariaDB's user password is the second generated password. |
| Helm.WordPressDbPasswordSetting | backend/orchestrator/helm.go:76 | WordPress connects with that same second password. |
| Helm.AdminPasswordSetting | backend/orchestrator/helm.go:77 | The admin password is the fixed "password123". |
| Helm.Password | backend/orchestrator/helm.go:126-137 | The result is Ok iff every draw succeeds, and then each character is the charset entry of its draw. An error is one of the draws' errors. |
| Helm.PasswordAlphabet | backend/orchestrator/helm.go:127-134 | Every generated character is from the 70-character set. |
| Helm.GenerateSecurePassword | backend/orchestrator/helm.go:126-137 | The array-filling loop with early error return equals `Password` of the first `length` draws. |
| Helm.PasswordErrSticks | backend/orchestrator/helm.go:129-133 | The first failing draw decides the error of the whole password. |
| Helm.InstallError | backend/orchestrator/helm.go:110-123 | A clean exit gives no error, a failed exit "helm install failed: " and its error, and a timeout "helm install timed out after 5 minutes for store " and the id. |
| Helm.Provision | backend/orchestrator/helm.go:16-124 | Helm is invoked iff both passwords were generated, with the install command line built from them, and its error is `InstallError` of the run. A failed draw gives "failed to generate root password: " or "failed to generate database password: " with the draw's error. |
| Helm.ProvisionedCredentials | backend/orchestrator/helm.go:54-62 | Both generated passwords have 16 charset characters. |
| Helm.ProvisionStore | backend/orchestrator/helm.go:16-124 | The commands run and the error returned are exactly `Provision`. |
| Helm.UninstallArgv | backend/orchestrator/helm.go:151 | The uninstall is `helm uninstall` of the namespace-named release in that namespace, with the kubeconfig. |
| Helm.NamespaceDeleteArgv | backend/orchestrator/helm.go:165 | The namespace deletion is `kubectl delete namespace` of the store's namespace, with the kubeconfig. |
| Helm.TeardownError | backend/orchestrator/helm.go:164-174 | A teardown fails iff the namespace deletion fails. |
| Helm.TeardownMatchesInstall | backend/orchestrator/helm.go:68-165 | The uninstalled release is the installed one, and the deleted namespace is the one it was installed into. |
| Helm.UninstallFailureTolerated | backend/orchestrator/helm.go:150-159 | The outcome of the uninstall never changes the teardown's error. |
| Helm.DeleteStore | backend/orchestrator/helm.go:140-175 | It runs the uninstall and then the namespace deletion, always both. Its error is `TeardownError`. |
| Cors.ConfiguredOrigins | backend/middleware/cors.go:23-30 | An empty variable adds nothing. Otherwise entry k is the k-th comma-separated piece trimmed of white space, and none contains a comma. |
| Cors.DefaultCORSConfig | backend/middleware/cors.go:20-45 | The two development origins come first, followed by the trimmed configured ones. The five methods, six headers and max-age 86400 are fixed. |
| Cors.OriginAllowedByMembership | backend/middleware/cors.go:53-59 | An origin is allowed exactly when the list holds "*" or the origin itself. |
| Cors.ToInt32 | backend/middleware/cors.go:67 | The conversion keeps the value modulo 2^32, in int32 range, and leaves int32 values unchanged. |
| Cors.RuneString | backend/middleware/cors.go:67 | The result is one character: the code point when it is a scalar value, else U+FFFD. |
| Cors.MaxAgeIsOneCodePoint | backend/middleware/cors.go:43-67 | The max-age header is the single character U+15180, not "86400". |
| Cors.CORSMiddleware | backend/middleware/cors.go:48-78 | Allow-Origin echoes the origin exactly when it is allowed; otherwise it is left as it was. Methods and headers are joined with ", ", with max-age and credentials set and nothing else changed. `OPTIONS` aborts with 204 and anything else continues. |
| Cors.DefaultsAlwaysAllowed | backend/middleware/cors.go:21-59 | The development origins are allowed whatever the environment. |
| Cors.ConfiguredOriginAllowed | backend/middleware/cors.go:25-59 | Every trimmed configured piece is allowed. |
| Cors.TrailingCommaAllowsMissingOrigin | backend/middleware/cors.go:25-62 | A trailing comma adds "", which matches a request without an `Origin` header. |
| Cors.WildcardAllowsAll | backend/middleware/cors.go:54-58 | A configured "*" allows every origin. |
| Security.Hardening | backend/middleware/security.go:14-40 | Six headers are set, including `DENY` and `nosniff`, and HSTS is not among them. |
| Security.SecurityHeaders | backend/middleware/security.go:12-50 | The six headers are set, and HSTS is set exactly over TLS. The key set grows by exactly those, no other header changes, and the request continues. |
| Security.ValidateContentType | backend/middleware/security.go:97-111 | It aborts with 415 iff the request is POST or PUT and the Content-Type lacks "application/json". Otherwise it continues. |
| Security.JsonSomewhereAccepted | backend/middleware/security.go:101 | Any value containing "application/json" anywhere passes. |
| Security.CapitalisedJsonRefused | backend/middleware/security.go:101 | The check is case-sensitive: "Application/JSON" is refused. |
| Security.MissingContentType | backend/middleware/security.go:99-108 | A POST or PUT without Content-Type is refused, and any other method passes. |
| Security.RequestSizeLimit | backend/middleware/security.go:53-66 | A request that did not panic continues. A panic is aborted with 413 iff the path contains "/api/stores", and with 500 otherwise. |
| Security.StorePathPanicIsTooLarge | backend/middleware/security.go:55-59 | Any panic under `/api/stores` is reported as 413. |
| Server.ConfiguredLimits | backend/main.go:31-32 | With rate 20 and burst 40, a new client gets 40 simultaneous requests and the 41st is denied. A token returns every 3 seconds. |
| Server.HeaderNamesDistinct | backend/main.go:40-48 | The CORS headers and the security headers (HSTS included) have distinct names, so neither middleware overwrites the other. |
| Server.Headers | backend/main.go:40-48 | A 415 carries no CORS headers. Otherwise Allow-Origin is present iff the origin is allowed, and a preflight aborts with 204. |
| Server.Serve | backend/main.go:40-51 | Hardening headers are always set. A 415 or a preflight costs no token. Any other request is charged exactly as `Request`. |
| Server.ReconcileCycle | backend/main.go:97-115 | A listing error skips the cycle. Otherwise the reports are `Reconciled` of each store that is neither `Deleting` nor `DeletionFailed`, in listing order. |
| Server.CycleCoverage | backend/main.go:104-108 | A store is probed iff it is listed and not being deleted. |
| Common.Filter | backend/main.go:104-108 | The filtered list keeps exactly the listed elements that pass the test. |
| Common.FilterAppend | backend/main.go:104-108 | Filtering keeps order: filtering a concatenation concatenates the filtered parts. |
| Common.FilterSingle | backend/main.go:105-108 | One store is kept exactly when it passes the test. |
| GoStrings.TrimSpace | backend/handlers/store.go:44 | The result is the input with a white-space prefix and a white-space suffix removed. It is empty iff the input was all white space, and otherwise neither starts nor ends with white space. |
| GoStrings.Fields | backend/orchestrator/health.go:98 | Fields are non-empty and contain no white space. There are none iff the input is all white space. |
| GoStrings.FieldsOfWord | backend/orchestrator/health.go:98 | A single word is its own only field. |
| GoStrings.FieldsAfterSpaces | backend/orchestrator/health.go:98 | Leading white space adds no field. |
| GoStrings.FieldsAroundSpace | backend/orchestrator/health.go:98 | A white-space character separates fields: the fields of `a + [c] + b` are those of `a` followed by those of `b`. |
| GoStrings.Utf8Len | backend/handlers/store.go:44 | The byte length is at least the character count. |
| GoStrings.AsciiUtf8Len | backend/handlers/store.go:44-51 | For ASCII text the byte length is the character count. |
| GoStrings.JoinSplit | backend/middleware/cors.go:25 | Joining the comma pieces gives back the variable's value. |
| GoStrings.SplitTrailing | backend/middleware/cors.go:25 | A trailing separator yields an empty last piece. |
| GoStrings.ContainsInfix | backend/middleware/security.go:101 | A substring occurrence is found wherever it sits. |
| GoStrings.ContainsTooLong | backend/middleware/security.go:101 | Nothing longer than the string occurs in it. |
| GoStrings.NatToString | backend/orchestrator/health.go:51 | `%d` output is non-empty decimal digits with no leading zero. |
| GoStrings.DecimalRoundTrip | backend/orchestrator/health.go:51 | Reading back the `%d` digits gives the number. |

## Left out

- **Logging.** All `log.Printf` output is left out.
- **The HTTP server and routing.** Gin's server, routing, the logger middleware, `ListStores` and the `/health` route
  of `main.go` are not modelled. `ListStores` is a plain read of the table.
- **JSON binding.** Request bodies are taken as the two bound fields. A binding error other than a missing required
  field (malformed JSON, wrong types) is left out.
- **Database errors.** The only one modelled is the insert that violates the primary key. Other database failures
  (the 500 answers on lookup, update and insert) are left out, because they depend on the database engine.
  Updates by the completion tasks are modelled as always succeeding.
- **Concurrency.**
  - Mutexes, goroutines and interleavings are left out. Every lock-guarded section and every detached task is one
    atomic method, so an interleaving is a sequence of calls.
  - The write-locked double-check in the rate limiter collapses to one lookup.
  - The in-place update of a `Store` copy by the gorm update is not modelled. The teardown reads only the copy's
    id and namespace.
- **Timers.** The 30-second reconciliation ticker, the 5-minute cleanup ticker, the 10-second readiness ticker, the
  5-minute install timeout and the 2-second sleep before namespace deletion are left out. Each tick is one call, and
  the timeout is an outcome of the `Installer` parameter.
- **Timestamps.** Two `time.Now()` calls that occur together (creation and updated-at) are one `now`.
- **Environment resolution.** `KUBECONFIG`, with its home-directory default, `DOMAIN_SUFFIX`, `HELM_VALUES_FILE` and
  `ALLOWED_ORIGINS` are passed in as strings. The model applies the `DOMAIN_SUFFIX` "localhost" default itself.
- **Floating point.** The refill's floating-point arithmetic is modelled as exact integer arithmetic on milliseconds,
  so precision effects of `Minutes()` for huge durations are not captured.
- **Command and request outcomes.** The output text of commands is left out, except the `kubectl` phase list. The
  values of HTTP responses other than their status are left out.
- **`TimeoutMiddleware`.** It starts `c.Next()` on a goroutine and races it against a timer. It is left out as
  concurrency.
- **`gin.Recovery`.** It is registered in `main.go` and is not modelled. `RequestSizeLimit` is modelled but is not
  registered in `main.go`, and its size bound is never used.
- **Store record fields.** `models/store.go` declares no `UpdatedAt` or `ErrorMessage` field, but the handlers write
  both. The model's `Store` carries them as the handlers use them. The `gorm` tags and JSON names are left out.
- **Reconciliation writes nothing.** The doc comment of `ReconcileStoreStatus` speaks of updating the database. The
  code only logs the drift, and the model follows the code: `ReconcileCycle` reports drifts and writes nothing.
- **Header values.** They are single strings. `Header().Set` replaces any previous value, which the model follows.

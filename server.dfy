/** The server wiring: the order of the middleware chain in front of the
    store routes, the rate limiter's configured limits, and one cycle of
    the background reconciliation service. */
module Server {
  import opened Common
  import opened Http
  import opened Models
  import opened Security
  import opened Cors
  import RateLimiter
  import Health

  /** `NewRateLimiter(20, 40)`: 20 requests a minute, bursts of 40. */
  const Rate := 20
  const Burst := 40

  /** What the middleware chain reads from a request. */
  datatype HttpRequest = HttpRequest(
    verb: string,
    path: string,
    origin: string,
    contentType: string,
    tls: bool,
    clientIP: string)

  /** A fresh client may send 40 requests at once and the 41st is refused;
      after that one token comes back every three seconds. */
  lemma ConfiguredLimits(now: int, b: RateLimiter.Bucket, later: int)
    requires RateLimiter.InBounds(b.tokens, Burst) && later >= b.lastSeen + 3000
    ensures RateLimiter.Pace(RateLimiter.Bucket(Burst, now), 0, Burst + 1, Rate, Burst)
            == seq(Burst, _ => true) + [false]
    ensures RateLimiter.Admit(b, later, Rate, Burst).allowed
  {
    RateLimiter.BurstThenDeny(now, Rate, Burst);
    RateLimiter.OneIntervalRefills(b, later, Rate, Burst);
  }

  /** The CORS header names are none of the hardening header names. */
  lemma HeaderNamesDistinct()
    ensures forall h :: h in Hardening() ==>
      h != AllowOrigin && h != AllowMethods && h != AllowHeaders && h != MaxAgeHeader && h != AllowCredentials
    ensures StrictTransportSecurity !in Hardening()
    ensures && StrictTransportSecurity != AllowOrigin && StrictTransportSecurity != AllowMethods
            && StrictTransportSecurity != AllowHeaders && StrictTransportSecurity != MaxAgeHeader
            && StrictTransportSecurity != AllowCredentials
  {
    forall h | h in Hardening()
      ensures h != AllowOrigin && h != AllowMethods && h != AllowHeaders && h != MaxAgeHeader && h != AllowCredentials
    {
      assert || h == FrameOptions || h == ContentTypeOptions || h == XssProtection
             || h == ContentSecurityPolicy || h == ReferrerPolicy || h == PermissionsPolicy;
    }
  }

  /** The headers CORS adds do not include Strict-Transport-Security. */
  lemma CorsLeavesTransportSecurity(before: Header, out: Header, allowed: bool)
    requires out.Keys == before.Keys + {AllowMethods, AllowHeaders, MaxAgeHeader, AllowCredentials}
                        + (if allowed then {AllowOrigin} else {})
    requires && StrictTransportSecurity != AllowOrigin && StrictTransportSecurity != AllowMethods
             && StrictTransportSecurity != AllowHeaders && StrictTransportSecurity != MaxAgeHeader
             && StrictTransportSecurity != AllowCredentials
    ensures StrictTransportSecurity in out <==> StrictTransportSecurity in before
  {
  }

  /** The header-writing part of the chain: security headers, the
      content-type gate, then CORS. */
  method Headers(cfg: CorsConfig, req: HttpRequest) returns (hdrs: Header, v: Verdict)
    ensures forall h :: h in Hardening() ==> h in hdrs && hdrs[h] == Hardening()[h]
    ensures StrictTransportSecurity in hdrs <==> req.tls
    ensures ValidateContentType(req.verb, req.contentType).Abort? ==>
      && v == Abort(StatusUnsupportedMediaType)
      && AllowOrigin !in hdrs && AllowCredentials !in hdrs
    ensures ValidateContentType(req.verb, req.contentType) == Continue ==>
      && (AllowOrigin in hdrs <==> OriginAllowed(cfg.allowedOrigins, req.origin))
      && AllowCredentials in hdrs
      && v == (if req.verb == "OPTIONS" then Abort(StatusNoContent) else Continue)
  {
    HeaderNamesDistinct();
    var sv;
    hdrs, sv := SecurityHeaders(map[], req.tls);
    assert StrictTransportSecurity in hdrs <==> req.tls;
    v := ValidateContentType(req.verb, req.contentType);
    if v.Abort? {
      return;
    }
    ghost var before := hdrs;
    hdrs, v := CORSMiddleware(cfg, req.origin, req.verb, hdrs);
    CorsLeavesTransportSecurity(before, hdrs, OriginAllowed(cfg.allowedOrigins, req.origin));
    forall h | h in Hardening()
      ensures h in hdrs && hdrs[h] == Hardening()[h]
    {
      assert h in before && before[h] == Hardening()[h];
    }
  }

  /** The middleware chain in registration order, up to the route handler:
      security headers, the content-type gate, CORS, then the rate limiter.
      `v == Continue` means the request reaches its handler. A request the
      content-type gate refuses carries no CORS headers and, like a
      preflight, costs its client no token. */
  method Serve(limiter: RateLimiter.RateLimiter, cfg: CorsConfig, req: HttpRequest, now: int)
      returns (hdrs: Header, v: Verdict)
    requires limiter.Valid()
    modifies limiter, limiter.clients.Values
    ensures limiter.Valid()
    ensures forall h :: h in Hardening() ==> h in hdrs && hdrs[h] == Hardening()[h]
    ensures StrictTransportSecurity in hdrs <==> req.tls
    ensures ValidateContentType(req.verb, req.contentType).Abort? ==>
      && v == Abort(StatusUnsupportedMediaType)
      && AllowOrigin !in hdrs && AllowCredentials !in hdrs
      && limiter.View() == old(limiter.View())
    ensures ValidateContentType(req.verb, req.contentType) == Continue ==>
      && (AllowOrigin in hdrs <==> OriginAllowed(cfg.allowedOrigins, req.origin))
      && AllowCredentials in hdrs
    ensures ValidateContentType(req.verb, req.contentType) == Continue && req.verb == "OPTIONS" ==>
      v == Abort(StatusNoContent) && limiter.View() == old(limiter.View())
    ensures ValidateContentType(req.verb, req.contentType) == Continue && req.verb != "OPTIONS" ==>
      (v, limiter.View()) == RateLimiter.Request(old(limiter.View()), req.clientIP, now, limiter.rate, limiter.burst)
  {
    ghost var start := limiter.View();
    hdrs, v := Headers(cfg, req);
    assert limiter.View() == start;
    if v.Abort? {
      return;
    }
    v := limiter.Middleware(req.clientIP, now);
  }

  /** The stores a cycle looks at: everything not being deleted. */
  predicate Reconcilable(s: Store)
  {
    s.status != Deleting && s.status != DeletionFailed
  }

  function Report(stores: seq<Store>, kubeconfig: string, kubectl: Health.Query): (r: seq<(Store, Health.Outcome)>)
    ensures |r| == |stores|
    ensures forall k :: 0 <= k < |r| ==> r[k].0 == stores[k]
  {
    seq(|stores|, k requires 0 <= k < |stores| => (stores[k], Health.Reconciled(stores[k], kubeconfig, kubectl)))
  }

  lemma ReportAppend(stores: seq<Store>, s: Store, kubeconfig: string, kubectl: Health.Query)
    ensures Report(stores + [s], kubeconfig, kubectl)
            == Report(stores, kubeconfig, kubectl) + [(s, Health.Reconciled(s, kubeconfig, kubectl))]
  {
  }

  /** One tick of `startReconciliationService`: list the stores, skip those
      being deleted and reconcile the rest in listing order. A listing
      error skips the cycle. Nothing is written back: a drift is only
      reported, so the method takes no store table. */
  method ReconcileCycle(listing: Result<seq<Store>, string>, kubeconfig: string, kubectl: Health.Query)
      returns (log: seq<(Store, Health.Outcome)>)
    ensures listing.Err? ==> log == []
    ensures listing.Ok? ==> log == Report(Filter(listing.value, Reconcilable), kubeconfig, kubectl)
  {
    log := [];
    if listing.Err? {
      return;
    }
    var stores := listing.value;
    for i := 0 to |stores|
      invariant log == Report(Filter(stores[..i], Reconcilable), kubeconfig, kubectl)
    {
      var s := stores[i];
      assert stores[..i + 1] == stores[..i] + [s];
      FilterAppend(stores[..i], [s], Reconcilable);
      FilterSingle(s, Reconcilable);
      if s.status == Deleting || s.status == DeletionFailed {
        assert Filter(stores[..i] + [s], Reconcilable) == Filter(stores[..i], Reconcilable) + [];
        continue;
      }
      var outcome := Health.ReconcileStoreStatus(s, kubeconfig, kubectl);
      ReportAppend(Filter(stores[..i], Reconcilable), s, kubeconfig, kubectl);
      log := log + [(s, outcome)];
    }
    assert stores[..|stores|] == stores;
  }

  /** A cycle never probes a store that is being deleted or whose deletion
      failed, and probes every other listed store. */
  lemma CycleCoverage(stores: seq<Store>, kubeconfig: string, kubectl: Health.Query, s: Store)
    ensures (exists k :: 0 <= k < |Report(Filter(stores, Reconcilable), kubeconfig, kubectl)|
                         && Report(Filter(stores, Reconcilable), kubeconfig, kubectl)[k].0 == s)
            <==> s in stores && Reconcilable(s)
  {
    var f := Filter(stores, Reconcilable);
    var r := Report(f, kubeconfig, kubectl);
    if s in f {
      var k :| 0 <= k < |f| && f[k] == s;
      assert r[k].0 == s;
    }
  }
}

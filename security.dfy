/** The security middleware: response hardening headers, the JSON
    content-type gate and the body-size recovery handler. */
module Security {
  import opened GoStrings
  import opened Http

  const FrameOptions := "X-Frame-Options"
  const ContentTypeOptions := "X-Content-Type-Options"
  const XssProtection := "X-XSS-Protection"
  const ContentSecurityPolicy := "Content-Security-Policy"
  const ReferrerPolicy := "Referrer-Policy"
  const PermissionsPolicy := "Permissions-Policy"
  const StrictTransportSecurity := "Strict-Transport-Security"

  const Policy :=
    "default-src 'self'; "
    + "script-src 'self' 'unsafe-inline' 'unsafe-eval'; "
    + "style-src 'self' 'unsafe-inline'; "
    + "img-src 'self' data: https:; "
    + "font-src 'self'; "
    + "connect-src 'self' ws: wss:; "
    + "frame-ancestors 'none'; "
    + "base-uri 'self'; "
    + "form-action 'self'"
  const Permissions := "geolocation=(), microphone=(), camera=(), payment=(), usb=()"
  const Hsts := "max-age=31536000; includeSubDomains; preload"

  /** The six headers set on every response, with their values. */
  function Hardening(): (h: Header)
    ensures |h.Keys| == 6
    ensures StrictTransportSecurity !in h
    ensures FrameOptions in h && h[FrameOptions] == "DENY"
    ensures ContentTypeOptions in h && h[ContentTypeOptions] == "nosniff"
  {
    map[FrameOptions := "DENY",
        ContentTypeOptions := "nosniff",
        XssProtection := "1; mode=block",
        ContentSecurityPolicy := Policy,
        ReferrerPolicy := "strict-origin-when-cross-origin",
        PermissionsPolicy := Permissions]
  }

  /** `SecurityHeaders`: sets the hardening headers over `hdrs`, and
      Strict-Transport-Security exactly when the request came over TLS;
      every other header is left alone and the request goes on. */
  method SecurityHeaders(hdrs: Header, tls: bool) returns (out: Header, v: Verdict)
    ensures forall h :: h in Hardening() ==> h in out && out[h] == Hardening()[h]
    ensures tls ==> StrictTransportSecurity in out && out[StrictTransportSecurity] == Hsts
    ensures !tls ==> (StrictTransportSecurity in out <==> StrictTransportSecurity in hdrs)
    ensures out.Keys == hdrs.Keys + Hardening().Keys + (if tls then {StrictTransportSecurity} else {})
    ensures forall h :: h in hdrs && h !in Hardening() && (tls ==> h != StrictTransportSecurity)
                        ==> out[h] == hdrs[h]
    ensures v == Continue
  {
    var hardening := Hardening();
    out := hdrs + hardening;
    MergeKeeps(hdrs, hardening);
    if tls {
      ghost var merged := out;
      out := out[StrictTransportSecurity := Hsts];
      SetKeeps(merged, StrictTransportSecurity, Hsts);
    }
    v := Continue;
  }

  /** What a map merge `hdrs + add` holds. */
  lemma MergeKeeps(hdrs: Header, add: Header)
    ensures var o := hdrs + add;
      && (forall h :: h in add ==> h in o && o[h] == add[h])
      && o.Keys == hdrs.Keys + add.Keys
      && (forall h :: h in hdrs && h !in add ==> o[h] == hdrs[h])
  {
  }

  /** What setting one header holds. */
  lemma SetKeeps(hdrs: Header, k: string, val: string)
    ensures var o := hdrs[k := val];
      && k in o && o[k] == val
      && o.Keys == hdrs.Keys + {k}
      && (forall h :: h in hdrs && h != k ==> o[h] == hdrs[h])
  {
  }

  const JsonMediaType := "application/json"

  /** `ValidateContentType`: a POST or PUT whose Content-Type does not
      contain "application/json" (case-sensitively, anywhere in the value)
      is refused with 415; every other request goes on. */
  function ValidateContentType(verb: string, contentType: string): (r: Verdict)
    ensures r == Continue || r == Abort(StatusUnsupportedMediaType)
    ensures r.Abort? <==> (verb == "POST" || verb == "PUT") && !Contains(contentType, JsonMediaType)
  {
    if (verb == "POST" || verb == "PUT") && !Contains(contentType, JsonMediaType) then
      Abort(StatusUnsupportedMediaType)
    else
      Continue
  }

  /** Any value with "application/json" inside it passes, parameters and
      surrounding text included. */
  lemma JsonSomewhereAccepted(verb: string, before: string, after: string)
    ensures ValidateContentType(verb, before + JsonMediaType + after) == Continue
  {
    ContainsInfix(before, JsonMediaType, after);
  }

  /** The comparison is case-sensitive: the same media type in capitals is
      refused. */
  lemma CapitalisedJsonRefused()
    ensures ValidateContentType("POST", "Application/JSON") == Abort(StatusUnsupportedMediaType)
  {
    var ct := "Application/JSON";
    assert !HasPrefix(ct, JsonMediaType) by {
      assert ct[0] != JsonMediaType[0];
    }
    ContainsTooLong(ct[1..], JsonMediaType);
  }

  /** A POST or PUT without a Content-Type header is refused; a DELETE or
      GET never is. */
  lemma MissingContentType(verb: string)
    ensures ValidateContentType(verb, "") ==
            (if verb == "POST" || verb == "PUT" then Abort(StatusUnsupportedMediaType) else Continue)
  {
    ContainsTooLong("", JsonMediaType);
  }

  const StoresPath := "/api/stores"

  /** `RequestSizeLimit(maxSize)`: a recovery handler. A request whose
      handler did not panic goes on; one that panicked is aborted with 413
      when its path contains "/api/stores" and 500 otherwise. The size
      bound is never consulted. */
  function RequestSizeLimit(maxSize: int, path: string, panicked: bool): (r: Verdict)
    ensures !panicked ==> r == Continue
    ensures panicked ==> r.Abort?
    ensures panicked ==> (r.status == StatusRequestEntityTooLarge <==> Contains(path, StoresPath))
    ensures panicked ==> (r.status == StatusInternalServerError <==> !Contains(path, StoresPath))
  {
    if !panicked then Continue
    else if Contains(path, StoresPath) then Abort(StatusRequestEntityTooLarge)
    else Abort(StatusInternalServerError)
  }

  /** Every path under the store API is reported as too large when its
      handler panics, whatever the cause. */
  lemma StorePathPanicIsTooLarge(maxSize: int, rest: string)
    ensures RequestSizeLimit(maxSize, StoresPath + rest, true) == Abort(StatusRequestEntityTooLarge)
  {
    ContainsInfix("", StoresPath, rest);
    assert "" + StoresPath + rest == StoresPath + rest;
  }
}

/** The CORS configuration and middleware. */
module Cors {
  import opened GoStrings
  import opened Http

  datatype CorsConfig = CorsConfig(
    allowedOrigins: seq<string>,
    allowedMethods: seq<string>,
    allowedHeaders: seq<string>,
    maxAge: int)

  const DefaultOrigins: seq<string> := ["http://localhost:5173", "http://localhost:3000"]
  const DefaultMethods: seq<string> := ["GET", "POST", "PUT", "DELETE", "OPTIONS"]
  const DefaultHeaders: seq<string> :=
    ["Origin", "Content-Type", "Accept", "Authorization", "X-Requested-With", "X-CSRF-Token"]
  const DefaultMaxAge := 86400

  const AllowOrigin := "Access-Control-Allow-Origin"
  const AllowMethods := "Access-Control-Allow-Methods"
  const AllowHeaders := "Access-Control-Allow-Headers"
  const MaxAgeHeader := "Access-Control-Max-Age"
  const AllowCredentials := "Access-Control-Allow-Credentials"

  /** The origins added from `ALLOWED_ORIGINS`: nothing when it is empty,
      otherwise its comma-separated pieces, each trimmed of white space. */
  function ConfiguredOrigins(env: string): (r: seq<string>)
    ensures env == "" ==> r == []
    ensures env != "" ==> |r| == |Split(env, ',')|
    ensures env != "" ==> forall k :: 0 <= k < |r| ==> r[k] == TrimSpace(Split(env, ',')[k])
    ensures forall k :: 0 <= k < |r| ==> ',' !in r[k]
  {
    if env == "" then []
    else
      var pieces := Split(env, ',');
      seq(|pieces|, k requires 0 <= k < |pieces| => TrimSpace(pieces[k]))
  }

  /** `DefaultCORSConfig` with `env` the value of `ALLOWED_ORIGINS`: the two
      local development origins, then the configured ones, trimmed in place. */
  method DefaultCORSConfig(env: string) returns (cfg: CorsConfig)
    ensures cfg.allowedOrigins == DefaultOrigins + ConfiguredOrigins(env)
    ensures cfg.allowedMethods == DefaultMethods
    ensures cfg.allowedHeaders == DefaultHeaders
    ensures cfg.maxAge == DefaultMaxAge
  {
    var allowedOrigins := DefaultOrigins;
    if env != "" {
      var origins := Split(env, ',');
      ghost var raw := origins;
      var i := 0;
      while i < |origins|
        invariant 0 <= i <= |origins| == |raw|
        invariant forall k :: 0 <= k < i ==> origins[k] == TrimSpace(raw[k])
        invariant forall k :: i <= k < |origins| ==> origins[k] == raw[k]
      {
        origins := origins[i := TrimSpace(origins[i])];
        i := i + 1;
      }
      assert origins == ConfiguredOrigins(env);
      allowedOrigins := allowedOrigins + origins;
    }
    cfg := CorsConfig(allowedOrigins, DefaultMethods, DefaultHeaders, DefaultMaxAge);
  }

  /** Some configured entry is the wildcard or equals the request origin. */
  predicate OriginAllowed(allowed: seq<string>, origin: string)
  {
    exists k :: 0 <= k < |allowed| && (allowed[k] == "*" || allowed[k] == origin)
  }

  /** An origin is allowed exactly when the list holds the wildcard or the
      origin itself. */
  lemma OriginAllowedByMembership(allowed: seq<string>, origin: string)
    ensures OriginAllowed(allowed, origin) <==> "*" in allowed || origin in allowed
  {
  }

  /** Go's int to int32 conversion, which keeps the low 32 bits. */
  function ToInt32(n: int): (r: int)
    ensures -0x8000_0000 <= r < 0x8000_0000
    ensures (r - n) % 0x1_0000_0000 == 0
    ensures -0x8000_0000 <= n < 0x8000_0000 ==> r == n
  {
    var m := n % 0x1_0000_0000;
    if m >= 0x8000_0000 then m - 0x1_0000_0000 else m
  }

  predicate ScalarValue(n: int)
  {
    0 <= n < 0xD800 || 0xE000 <= n <= 0x10FFFF
  }

  /** `string(rune(n))`: the one-character string holding code point `n`,
      or the replacement character when `n` is not a Unicode scalar value. */
  function RuneString(n: int): (r: string)
    ensures |r| == 1
    ensures ScalarValue(ToInt32(n)) ==> r[0] as int == ToInt32(n)
    ensures !ScalarValue(ToInt32(n)) ==> r == ['\U{FFFD}']
  {
    var c := ToInt32(n);
    if ScalarValue(c) then [c as char] else ['\U{FFFD}']
  }

  /** The max-age header holds the one character U+15180, not the decimal
      number of seconds a browser expects. */
  lemma MaxAgeIsOneCodePoint()
    ensures RuneString(DefaultMaxAge) == ['\U{15180}']
    ensures RuneString(DefaultMaxAge) != Itoa(DefaultMaxAge)
  {
    assert ToInt32(DefaultMaxAge) == 0x15180;
    assert |Itoa(DefaultMaxAge)| > 1 by {
      assert Itoa(DefaultMaxAge) == NatToString(8640) + [DigitChar(0)];
    }
  }

  /** The CORS middleware. `hdrs` is the response header so far; `out` is
      it after this middleware; a preflight `OPTIONS` request ends here with
      204 whether or not its origin is allowed. */
  method CORSMiddleware(cfg: CorsConfig, origin: string, verb: string, hdrs: Header)
      returns (out: Header, v: Verdict)
    ensures OriginAllowed(cfg.allowedOrigins, origin) ==> AllowOrigin in out && out[AllowOrigin] == origin
    ensures !OriginAllowed(cfg.allowedOrigins, origin) ==>
      (AllowOrigin in out <==> AllowOrigin in hdrs) && (AllowOrigin in hdrs ==> out[AllowOrigin] == hdrs[AllowOrigin])
    ensures AllowMethods in out && out[AllowMethods] == Join(cfg.allowedMethods, ", ")
    ensures AllowHeaders in out && out[AllowHeaders] == Join(cfg.allowedHeaders, ", ")
    ensures MaxAgeHeader in out && out[MaxAgeHeader] == RuneString(cfg.maxAge)
    ensures AllowCredentials in out && out[AllowCredentials] == "true"
    ensures out.Keys == hdrs.Keys + {AllowMethods, AllowHeaders, MaxAgeHeader, AllowCredentials}
                        + (if OriginAllowed(cfg.allowedOrigins, origin) then {AllowOrigin} else {})
    ensures forall h :: (&& h in hdrs && h != AllowOrigin && h != AllowMethods && h != AllowHeaders
                         && h != MaxAgeHeader && h != AllowCredentials) ==> out[h] == hdrs[h]
    ensures v == (if verb == "OPTIONS" then Abort(StatusNoContent) else Continue)
  {
    var allowed := false;
    var i := 0;
    while i < |cfg.allowedOrigins|
      invariant 0 <= i <= |cfg.allowedOrigins|
      invariant !allowed
      invariant forall k :: 0 <= k < i ==> cfg.allowedOrigins[k] != "*" && cfg.allowedOrigins[k] != origin
    {
      var entry := cfg.allowedOrigins[i];
      if entry == "*" || entry == origin {
        allowed := true;
        break;
      }
      i := i + 1;
    }
    assert allowed <==> OriginAllowed(cfg.allowedOrigins, origin);

    out := hdrs;
    if allowed {
      out := out[AllowOrigin := origin];
    }
    out := out[AllowMethods := Join(cfg.allowedMethods, ", ")];
    out := out[AllowHeaders := Join(cfg.allowedHeaders, ", ")];
    out := out[MaxAgeHeader := RuneString(cfg.maxAge)];
    out := out[AllowCredentials := "true"];

    if verb == "OPTIONS" {
      return out, Abort(StatusNoContent);
    }
    v := Continue;
  }

  /** The development origins are always allowed, whatever the environment. */
  lemma DefaultsAlwaysAllowed(env: string, origin: string)
    requires origin in DefaultOrigins
    ensures OriginAllowed(DefaultOrigins + ConfiguredOrigins(env), origin)
  {
    var all := DefaultOrigins + ConfiguredOrigins(env);
    if origin == DefaultOrigins[0] {
      assert all[0] == origin;
    } else {
      assert all[1] == origin;
    }
  }

  /** Every trimmed configured origin is allowed, so white space around the
      commas of `ALLOWED_ORIGINS` does not matter. */
  lemma ConfiguredOriginAllowed(env: string, k: nat)
    requires env != "" && k < |Split(env, ',')|
    ensures OriginAllowed(DefaultOrigins + ConfiguredOrigins(env), TrimSpace(Split(env, ',')[k]))
  {
    var all := DefaultOrigins + ConfiguredOrigins(env);
    assert all[|DefaultOrigins| + k] == TrimSpace(Split(env, ',')[k]);
  }

  /** A trailing comma in `ALLOWED_ORIGINS` adds an empty entry, which
      matches a request that carries no `Origin` header at all (the header
      lookup gives ""), so such a request is answered with an empty
      allow-origin header. */
  lemma TrailingCommaAllowsMissingOrigin(a: string)
    ensures OriginAllowed(DefaultOrigins + ConfiguredOrigins(a + [',']), "")
  {
    var env := a + [','];
    var pieces := Split(env, ',');
    var last := |pieces| - 1;
    SplitTrailing(a, ',');
    assert pieces[last] == "";
    assert TrimSpace("") == "";
    var configured := ConfiguredOrigins(env);
    assert configured[last] == "";
    var all := DefaultOrigins + configured;
    assert all[|DefaultOrigins| + last] == configured[last];
  }

  /** A configured wildcard allows every origin. */
  lemma WildcardAllowsAll(env: string, origin: string)
    requires "*" in ConfiguredOrigins(env)
    ensures OriginAllowed(DefaultOrigins + ConfiguredOrigins(env), origin)
  {
    var configured := ConfiguredOrigins(env);
    var k :| 0 <= k < |configured| && configured[k] == "*";
    var all := DefaultOrigins + configured;
    assert all[|DefaultOrigins| + k] == configured[k];
  }
}

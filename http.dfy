/** The HTTP vocabulary of the control plane: the status codes it answers
    with, the response-header map middlewares write into, and the verdict a
    gin middleware reaches (continue down the chain, or abort with a status). */
module Http {

  const StatusOK := 200
  const StatusAccepted := 202
  const StatusNoContent := 204
  const StatusBadRequest := 400
  const StatusNotFound := 404
  const StatusConflict := 409
  const StatusRequestEntityTooLarge := 413
  const StatusUnsupportedMediaType := 415
  /** Too Many Requests, section 4 of RFC 6585. */
  const StatusTooManyRequests := 429
  const StatusInternalServerError := 500
  const StatusServiceUnavailable := 503

  /** Response headers: `Header().Set(k, v)` replaces whatever `k` held. */
  type Header = map<string, string>

  /** What a middleware decides: `Continue` is `c.Next()`, `Abort(s)` answers
      with status `s` and stops the chain. */
  datatype Verdict = Continue | Abort(status: int)
}

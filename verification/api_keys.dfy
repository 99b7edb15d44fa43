/**
 * `resolveApiKey` of the ETL and search edge functions: the Gemini key comes
 * from the request body, else the `x-gemini-api-key` header, else the
 * environment, whichever is first non-blank after trimming. An absent value
 * (`undefined`, `null`) is `None`.
 */
module ApiKeys {

  import opened Text
  import opened Wrappers

  /** Present and not blank once trimmed (`key?.trim()` is truthy). */
  predicate Usable(key: Option<string>) {
    key.Some? && Strip(key.value) != []
  }

  /** The resolved key, or `None` where the source throws "API key required". */
  function ResolveApiKey(body: Option<string>, header: Option<string>, env: Option<string>): (r: Option<string>)
    // thrown exactly when no source holds a usable key
    ensures r.None? <==> !Usable(body) && !Usable(header) && !Usable(env)
    // the key handed on is never blank and already trimmed
    ensures r.Some? ==> r.value != [] && Strip(r.value) == r.value
  {
    if Usable(body) then StripIdempotent(body.value); Some(Strip(body.value))
    else if Usable(header) then StripIdempotent(header.value); Some(Strip(header.value))
    else if Usable(env) then StripIdempotent(env.value); Some(Strip(env.value))
    else None
  }

  /** The body outranks the header, which outranks the environment. */
  lemma KeyPrecedence(body: Option<string>, header: Option<string>, env: Option<string>)
    ensures Usable(body) ==> ResolveApiKey(body, header, env) == Some(Strip(body.value))
    ensures !Usable(body) && Usable(header) ==> ResolveApiKey(body, header, env) == Some(Strip(header.value))
    ensures !Usable(body) && !Usable(header) && Usable(env) ==> ResolveApiKey(body, header, env) == Some(Strip(env.value))
  {
  }

  /** A blank body key is skipped as if it were absent. */
  lemma BlankKeyIsAbsent(body: string, header: Option<string>, env: Option<string>)
    requires IsBlank(body)
    ensures ResolveApiKey(Some(body), header, env) == ResolveApiKey(None, header, env)
  {
    StripEmptyIffBlank(body);
  }
}

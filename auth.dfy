/**
 * The basic-auth gate placed in front of a handler. The expected user name
 * and password come from the process environment, looked up on every
 * request; the request is passed on only when it carries exactly those
 * credentials, both non-empty. Otherwise the gate answers 401 with a Basic
 * challenge and the inner handler never sees the request.
 */
module BasicAuth {
  import opened Http

  const UserVar := "BASIC_AUTH_USER_ID"
  const PasswordVar := "BASIC_AUTH_PASSWORD"
  const ChallengeHeader := "WWW-Authenticate"
  const Challenge := "Basic realm=\"restricted\""

  /** `os.Getenv(key)`: the variable's value, or "" when it is unset. */
  function Getenv(environ: map<string, string>, key: string): string
  {
    if key in environ then environ[key] else ""
  }

  /** The gate's admission test, with the expected credentials read from `environ`. */
  function Admit(environ: map<string, string>, c: Credentials): (admitted: bool)
    // exactly one credential pair is admitted: the configured one, when both halves are set
    ensures admitted <==>
              Getenv(environ, UserVar) != "" && Getenv(environ, PasswordVar) != "" &&
              c == Credentials(Getenv(environ, UserVar), Getenv(environ, PasswordVar), true)
    // fail closed: with either variable unset or empty nobody gets in
    ensures Getenv(environ, UserVar) == "" || Getenv(environ, PasswordVar) == "" ==> !admitted
  {
    var username := Getenv(environ, UserVar);
    var password := Getenv(environ, PasswordVar);
    !(!c.ok || |c.user| == 0 || |c.pass| == 0 || c.user != username || c.pass != password)
  }

  /** What the gate does with a request: pass it on unchanged, or answer it itself. */
  datatype Verdict = Forward(request: Request) | Rejected(response: Response)

  /** The answer to a request that fails the test. */
  function Unauthorized(): Response
  {
    Response(StatusUnauthorized, map[ChallengeHeader := Challenge], ErrorText)
  }

  /** `BasicAuthMiddleware(h)` applied to one request. */
  function BasicAuthMiddleware(environ: map<string, string>, r: Request): (v: Verdict)
    ensures v.Forward? <==> Admit(environ, r.credentials)
    // the inner handler receives the request as it came in
    ensures v.Forward? ==> v.request == r
    // a refused request gets 401 and the Basic challenge for realm "restricted"
    ensures v.Rejected? ==>
              v.response.status == StatusUnauthorized &&
              ChallengeHeader in v.response.header && v.response.header[ChallengeHeader] == Challenge
  {
    if !Admit(environ, r.credentials) then Rejected(Unauthorized()) else Forward(r)
  }

  /**
   * The decision depends on the credentials alone: two requests with the
   * same credentials, whatever their method, query or body, are both
   * passed on or both refused with the same response.
   */
  lemma DecisionByCredentials(environ: map<string, string>, r1: Request, r2: Request)
    requires r1.credentials == r2.credentials
    ensures BasicAuthMiddleware(environ, r1).Forward? == BasicAuthMiddleware(environ, r2).Forward?
    ensures BasicAuthMiddleware(environ, r1).Rejected? ==>
              BasicAuthMiddleware(environ, r1) == BasicAuthMiddleware(environ, r2)
  {
  }

  /** A missing Authorization header, or an empty user name or password, is refused whatever the environment holds. */
  lemma AnonymousRefused(environ: map<string, string>, r: Request)
    requires !r.credentials.ok || r.credentials.user == "" || r.credentials.pass == ""
    ensures BasicAuthMiddleware(environ, r) == Rejected(Unauthorized())
  {
  }
}

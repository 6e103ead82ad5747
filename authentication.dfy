/**
  `PostAuthentication`: reads are open to everyone, writes go through HTTP
  basic authentication. The basic-auth check itself (credential parsing, the
  user table) is a parameter.
  */
module Authentication {
  import opened Wrappers

  /** The parts of a request an authentication policy looks at. */
  datatype Request = Request(httpMethod: string, authorization: Option<string>)

  /** What an authentication check answers: `True`, or the 401 response that
      the framework sends back in its place. */
  datatype AuthResult = Authenticated | Unauthorized

  /** `PostAuthentication.is_authenticated`. */
  function IsAuthenticated(request: Request, basicAuthentication: Request -> AuthResult): (r: AuthResult)
    ensures request.httpMethod == "GET" ==> r == Authenticated
    ensures request.httpMethod != "GET" ==> r == basicAuthentication(request)
  {
    if request.httpMethod == "GET" then Authenticated
    else basicAuthentication(request)
  }
}

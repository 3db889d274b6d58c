/**
 * The `isLoggedIn` middleware: take a token from an `Authorization: Bearer` header
 * (section 2.1 of RFC 6750), else from the `token` cookie, verify it, and let the
 * request through with the decoded payload. `verify` stands for `jwt.verify` with the
 * server's secret (RFC 7519): a partial function from tokens to payloads.
 */
module Auth {
  import opened Basics

  const BearerPrefix: string := "Bearer "

  predicate StartsWith(s: string, prefix: string) {
    |prefix| <= |s| && s[..|prefix|] == prefix
  }

  /** `parts.join(' ')`. */
  function Join(parts: seq<string>): string
    requires |parts| >= 1
    decreases |parts|
  {
    if |parts| == 1 then parts[0] else parts[0] + " " + Join(parts[1..])
  }

  /** `s.split(' ')`: the space-free pieces which, joined with single spaces, give back `s`. */
  function Split(s: string): (parts: seq<string>)
    ensures |parts| >= 1
    ensures forall k :: 0 <= k < |parts| ==> ' ' !in parts[k]
    ensures Join(parts) == s
    decreases |s|
  {
    if s == [] then
      [""]
    else if s[0] == ' ' then
      var rest := Split(s[1..]);
      assert ([""] + rest)[1..] == rest;
      [""] + rest
    else
      var rest := Split(s[1..]);
      var parts := [[s[0]] + rest[0]] + rest[1..];
      assert |rest| > 1 ==> parts[1..] == rest[1..];
      assert s == [s[0]] + s[1..];
      parts
  }

  /** A space-free word splits to itself. */
  lemma {:induction false} SplitWord(w: string)
    requires ' ' !in w
    ensures Split(w) == [w]
    decreases |w|
  {
    if w != [] {
      assert ' ' !in w[1..];
      SplitWord(w[1..]);
      assert w == [w[0]] + w[1..];
    }
  }

  /** A space-free word followed by a space splits off as the first piece. */
  lemma {:induction false} SplitAfterWord(w: string, t: string)
    requires ' ' !in w
    ensures Split(w + " " + t) == [w] + Split(t)
    decreases |w|
  {
    if w == [] {
      assert w + " " + t == [' '] + t;
      assert (w + " " + t)[1..] == t;
    } else {
      assert ' ' !in w[1..];
      SplitAfterWord(w[1..], t);
      assert (w + " " + t)[1..] == w[1..] + " " + t;
      assert w == [w[0]] + w[1..];
    }
  }

  /** Splitting undoes joining space-free pieces. */
  lemma {:induction false} SplitJoin(parts: seq<string>)
    requires |parts| >= 1
    requires forall k :: 0 <= k < |parts| ==> ' ' !in parts[k]
    ensures Split(Join(parts)) == parts
    decreases |parts|
  {
    if |parts| == 1 {
      SplitWord(parts[0]);
    } else {
      SplitJoin(parts[1..]);
      SplitAfterWord(parts[0], Join(parts[1..]));
      assert parts == [parts[0]] + parts[1..];
    }
  }

  /** The first piece of a split is the longest space-free prefix. */
  lemma FirstPiece(s: string)
    ensures var w := Split(s)[0];
            ' ' !in w && StartsWith(s, w) && (|w| == |s| || s[|w|] == ' ')
  {
    var parts := Split(s);
    if |parts| > 1 {
      assert s == parts[0] + " " + Join(parts[1..]);
      assert s[..|parts[0]|] == parts[0];
    }
  }

  /**
   * The header's candidate token, `authorization.split(' ')[1]` when the header starts
   * with the exact, case-sensitive "Bearer "; the empty string (no token) otherwise.
   */
  function HeaderToken(authorization: Option<string>): (t: string)
    ensures !(authorization.Some? && StartsWith(authorization.value, BearerPrefix)) ==> t == ""
    ensures authorization.Some? && StartsWith(authorization.value, BearerPrefix) ==>
              var rest := authorization.value[|BearerPrefix|..];
              ' ' !in t && StartsWith(rest, t) && (|t| == |rest| || rest[|t|] == ' ')
  {
    if authorization.Some? && StartsWith(authorization.value, BearerPrefix) then
      var h := authorization.value;
      var rest := h[|BearerPrefix|..];
      assert h == "Bearer" + " " + rest;
      SplitAfterWord("Bearer", rest);
      FirstPiece(rest);
      Split(h)[1]
    else
      ""
  }

  /** The `token` cookie, when the cookies were parsed and it is non-empty. */
  function CookieToken(cookies: Option<map<string, string>>): (t: Option<string>)
    ensures t.Some? <==> cookies.Some? && "token" in cookies.value && cookies.value["token"] != ""
    ensures t.Some? ==> t.value == cookies.value["token"]
  {
    if cookies.Some? && "token" in cookies.value && cookies.value["token"] != "" then Some(cookies.value["token"]) else None
  }

  /** The token the middleware verifies: the header's when non-empty, else the cookie's. */
  function ExtractToken(authorization: Option<string>, cookies: Option<map<string, string>>): (t: Option<string>)
    ensures t.Some? ==> t.value != ""
    ensures HeaderToken(authorization) != "" ==> t == Some(HeaderToken(authorization))
    ensures HeaderToken(authorization) == "" ==> t == CookieToken(cookies)
    ensures t.None? <==> HeaderToken(authorization) == "" && CookieToken(cookies).None?
  {
    var fromHeader := HeaderToken(authorization);
    if fromHeader != "" then Some(fromHeader) else CookieToken(cookies)
  }

  /** A request as the middleware sees it; `user` is `req.user`, `nextCalls` counts calls of `next()`. */
  class Request<P> {
    const authorization: Option<string>
    const cookies: Option<map<string, string>>
    var user: Option<P>
    var nextCalls: nat

    constructor (authorization: Option<string>, cookies: Option<map<string, string>>)
      ensures this.authorization == authorization && this.cookies == cookies
      ensures user == None && nextCalls == 0
    {
      this.authorization := authorization;
      this.cookies := cookies;
      user := None;
      nextCalls := 0;
    }
  }

  datatype Outcome = NoToken | InvalidToken | Passed
  {
    /** The status the middleware answers with; a passed request is answered further down the chain. */
    function Status(): Option<int> {
      if Passed? then None else Some(401)
    }

    function Message(): string
      requires !Passed?
    {
      match this
      case NoToken => "Access denied. No token provided."
      case InvalidToken => "Invalid or expired token."
    }
  }

  /** `isLoggedIn(req, res, next)`. */
  method IsLoggedIn<P>(req: Request<P>, verify: string -> Option<P>) returns (o: Outcome)
    modifies req
    ensures var t := ExtractToken(req.authorization, req.cookies);
            && (t.None? ==> o == NoToken)
            && (t.Some? && verify(t.value).None? ==> o == InvalidToken)
            && (t.Some? && verify(t.value).Some? ==> o == Passed && req.user == verify(t.value))
    ensures o != Passed ==> req.user == old(req.user) && req.nextCalls == old(req.nextCalls)
    ensures o == Passed ==> req.user.Some? && req.nextCalls == old(req.nextCalls) + 1
  {
    var token := HeaderToken(req.authorization);
    if token == "" && req.cookies.Some? && "token" in req.cookies.value && req.cookies.value["token"] != "" {
      token := req.cookies.value["token"];
    }
    if token == "" {
      return NoToken;
    }
    var decoded := verify(token);
    if decoded.None? {
      return InvalidToken;
    }
    req.user := decoded;
    req.nextCalls := req.nextCalls + 1;
    o := Passed;
  }
}

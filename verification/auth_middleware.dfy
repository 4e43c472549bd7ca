/**
 * task9's authentication middleware: parsing the `Authorization` header,
 * filling the request context from the token's claims, and the admin gate
 * that reads the context back. Token validation (JWT) is an uninterpreted
 * function; the HTTP plumbing of the framework is left out.
 */
module AuthMiddleware {
  import opened Wrappers
  import opened Domain

  const KeyUserID: string := "userID"
  const KeyUsername: string := "username"
  const KeyUserRole: string := "role"
  const KeyIsVerified: string := "isVerified"

  const StatusUnauthorized: int := 401
  const StatusForbidden: int := 403
  const StatusInternalServerError: int := 500

  const MissingHeaderMessage: string := "Authorization header missing"
  const BadFormatMessage: string := "Invalid authorization header format"
  const ContextMissingMessage: string := "Authentication context missing"
  const RoleMissingMessage: string := "User role not found in context"
  const RoleTypeMessage: string := "Invalid user role type in context"

  /** The claims a valid token carries. */
  datatype Claims = Claims(userID: int, username: string, role: string)

  /** A value stored in the request context, with its dynamic type. */
  datatype Value = IntValue(i: int) | StringValue(s: string) | BoolValue(b: bool)

  type Context = map<string, Value>

  /**
   * What a middleware does with the request: abort with a status and an
   * error message, pass it on with the context it leaves, or panic (a
   * failed type assertion).
   */
  datatype Decision = Abort(status: int, message: string) | Next(ctx: Context) | Panic

  /** Go's `strings.Split(s, " ")`: the pieces between single spaces, empty ones included. */
  function Split(s: string): (parts: seq<string>)
    ensures |parts| >= 1
    ensures forall i :: 0 <= i < |parts| ==> ' ' !in parts[i]
    ensures Join(parts) == s
  {
    if |s| == 0 then [""]
    else
      var rest := Split(s[1..]);
      if s[0] == ' ' then [""] + rest
      else
        assert s == [s[0]] + s[1..];
        [[s[0]] + rest[0]] + rest[1..]
  }

  /** Go's `strings.Join(parts, " ")`. */
  function Join(parts: seq<string>): string
    requires |parts| >= 1
  {
    if |parts| == 1 then parts[0] else parts[0] + " " + Join(parts[1..])
  }

  /** Splitting a space-free word followed by one space and a space-free token gives exactly those two parts. */
  lemma {:induction false} SplitTwoWords(word: string, token: string)
    requires ' ' !in word && ' ' !in token
    ensures Split(word + " " + token) == [word, token]
  {
    if |word| == 0 {
      assert word + " " + token == [' '] + token;
      assert (word + " " + token)[1..] == token;
      SplitSingle(token);
    } else {
      var s := word + " " + token;
      assert s[1..] == word[1..] + " " + token;
      assert ' ' !in word[1..];
      SplitTwoWords(word[1..], token);
      assert [word[0]] + word[1..] == word;
    }
  }

  /** A string without spaces splits into itself. */
  lemma {:induction false} SplitSingle(s: string)
    requires ' ' !in s
    ensures Split(s) == [s]
  {
    if |s| > 0 {
      assert ' ' !in s[1..];
      SplitSingle(s[1..]);
      assert [s[0]] + s[1..] == s;
    }
  }

  /** ASCII lower-casing of one character. */
  function LowerChar(c: char): char {
    if 'A' <= c <= 'Z' then (c as int + 32) as char else c
  }

  /** `strings.ToLower` on ASCII text. */
  function Lower(s: string): (r: string)
    ensures |r| == |s| && forall i :: 0 <= i < |s| ==> r[i] == LowerChar(s[i])
  {
    seq(|s|, i requires 0 <= i < |s| => LowerChar(s[i]))
  }

  /** The context after a successful authentication: the claims and the verified flag. */
  function WithClaims(ctx: Context, c: Claims): Context {
    ctx[KeyUserID := IntValue(c.userID)][KeyUsername := StringValue(c.username)]
       [KeyUserRole := StringValue(c.role)][KeyIsVerified := BoolValue(true)]
  }

  /**
   * `Authenticate`: the header must be non-empty and split on spaces into
   * exactly a scheme equal to "bearer" (any case) and a token; the token is
   * handed to `validate`, whose error message is passed on as is.
   */
  function Authenticate(header: string, ctx: Context, validate: string -> Result<Claims, string>): (d: Decision)
    ensures header == "" ==> d == Abort(StatusUnauthorized, MissingHeaderMessage)
    ensures !d.Panic?
    ensures d.Abort? ==> d.status == StatusUnauthorized
    ensures d.Next? <==>
              && header != ""
              && |Split(header)| == 2 && Lower(Split(header)[0]) == "bearer"
              && validate(Split(header)[1]).Ok?
    ensures d.Next? ==>
              && header == Split(header)[0] + " " + Split(header)[1]
              && ' ' !in Split(header)[1]
              && d.ctx == WithClaims(ctx, validate(Split(header)[1]).value)
    ensures header != "" && (|Split(header)| != 2 || Lower(Split(header)[0]) != "bearer") ==>
              d == Abort(StatusUnauthorized, BadFormatMessage)
    ensures header != "" && |Split(header)| == 2 && Lower(Split(header)[0]) == "bearer" && validate(Split(header)[1]).Err? ==>
              d == Abort(StatusUnauthorized, validate(Split(header)[1]).error)
  {
    if header == "" then Abort(StatusUnauthorized, MissingHeaderMessage)
    else
      var parts := Split(header);
      if |parts| != 2 || Lower(parts[0]) != "bearer" then Abort(StatusUnauthorized, BadFormatMessage)
      else
        assert Join(parts) == parts[0] + " " + Join(parts[1..]) && parts[1..] == [parts[1]];
        match validate(parts[1])
        case Err(msg) => Abort(StatusUnauthorized, msg)
        case Ok(claims) => Next(WithClaims(ctx, claims))
  }

  /**
   * `AuthorizeAdmin`: requires the verified flag set by `Authenticate`
   * (500 otherwise), then lets the request through exactly when the role is
   * the string "admin", compared case-sensitively.
   */
  function AuthorizeAdmin(ctx: Context): (d: Decision)
    ensures (KeyIsVerified !in ctx || ctx[KeyIsVerified] == BoolValue(false)) ==>
              d == Abort(StatusInternalServerError, ContextMissingMessage)
    ensures d.Next? <==>
              && KeyIsVerified in ctx && ctx[KeyIsVerified] == BoolValue(true)
              && KeyUserRole in ctx && ctx[KeyUserRole] == StringValue(RoleAdmin)
    ensures d.Next? ==> d.ctx == ctx
    ensures d.Panic? <==> KeyIsVerified in ctx && !ctx[KeyIsVerified].BoolValue?
    ensures d.Abort? && d.status == StatusForbidden ==> d.message == Message(Forbidden)
    ensures KeyIsVerified in ctx && ctx[KeyIsVerified] == BoolValue(true) && KeyUserRole !in ctx ==>
              d == Abort(StatusInternalServerError, RoleMissingMessage)
    ensures KeyIsVerified in ctx && ctx[KeyIsVerified] == BoolValue(true) && KeyUserRole in ctx && !ctx[KeyUserRole].StringValue? ==>
              d == Abort(StatusInternalServerError, RoleTypeMessage)
    ensures KeyIsVerified in ctx && ctx[KeyIsVerified] == BoolValue(true) && KeyUserRole in ctx &&
            ctx[KeyUserRole].StringValue? && ctx[KeyUserRole].s != RoleAdmin ==>
              d == Abort(StatusForbidden, Message(Forbidden))
  {
    if KeyIsVerified !in ctx then Abort(StatusInternalServerError, ContextMissingMessage)
    else if !ctx[KeyIsVerified].BoolValue? then Panic
    else if !ctx[KeyIsVerified].b then Abort(StatusInternalServerError, ContextMissingMessage)
    else if KeyUserRole !in ctx then Abort(StatusInternalServerError, RoleMissingMessage)
    else if !ctx[KeyUserRole].StringValue? then Abort(StatusInternalServerError, RoleTypeMessage)
    else if ctx[KeyUserRole].s != RoleAdmin then Abort(StatusForbidden, Message(Forbidden))
    else Next(ctx)
  }

  /** A well-formed bearer header is accepted and exactly its token is validated. */
  lemma BearerHeaderAccepted(scheme: string, token: string, ctx: Context, validate: string -> Result<Claims, string>)
    requires Lower(scheme) == "bearer" && ' ' !in token
    requires validate(token).Ok?
    ensures Authenticate(scheme + " " + token, ctx, validate) == Next(WithClaims(ctx, validate(token).value))
  {
    assert ' ' !in scheme by {
      forall i | 0 <= i < |scheme|
        ensures scheme[i] != ' '
      {
        assert Lower(scheme)[i] == LowerChar(scheme[i]);
      }
    }
    SplitTwoWords(scheme, token);
  }

  /** "Bearer" without a token is refused as malformed. */
  lemma SchemeAloneRefused(ctx: Context, validate: string -> Result<Claims, string>)
    ensures Authenticate("Bearer", ctx, validate) == Abort(StatusUnauthorized, BadFormatMessage)
  {
    SplitSingle("Bearer");
  }

  /** "Bearer" followed by two spaces and a token is refused as malformed: it splits into three parts. */
  lemma DoubleSpaceRefused(ctx: Context, validate: string -> Result<Claims, string>)
    ensures Authenticate("Bearer  t", ctx, validate) == Abort(StatusUnauthorized, BadFormatMessage)
  {
    assert "Bearer  t" == "Bearer" + " " + " t";
    assert " t" == "" + " " + "t";
    SplitPrefix("Bearer", " t");
    SplitPrefix("", "t");
    SplitSingle("t");
    assert |Split("Bearer  t")| == 3;
  }

  /** Splitting a space-free word, a space and the rest starts with the word. */
  lemma {:induction false} SplitPrefix(word: string, rest: string)
    requires ' ' !in word
    ensures Split(word + " " + rest) == [word] + Split(rest)
  {
    if |word| == 0 {
      assert (word + " " + rest)[1..] == rest;
    } else {
      var s := word + " " + rest;
      assert s[1..] == word[1..] + " " + rest;
      assert ' ' !in word[1..];
      SplitPrefix(word[1..], rest);
      assert [word[0]] + word[1..] == word;
    }
  }

  /**
   * The two middlewares in sequence let a request through exactly when the
   * header is a valid bearer header and the token's role is "admin".
   */
  lemma AuthenticatedAdminOnly(header: string, ctx: Context, validate: string -> Result<Claims, string>)
    ensures
      var a := Authenticate(header, ctx, validate);
      (a.Next? && AuthorizeAdmin(a.ctx).Next?) <==>
        (a.Next? && validate(Split(header)[1]).value.role == RoleAdmin)
  {
  }
}

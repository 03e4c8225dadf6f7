/** Sessions: the `verificarToken` and `verificarAdmin` middleware and the login route.
    JSON Web Tokens and bcrypt are library calls, so they enter as functions passed in:
    `verify` says what `jwt.verify` concludes about a token, `sign` is `jwt.sign`, and
    `compare` is `bcrypt.compare`. */
module Auth {
  import opened Wrappers
  import opened Schema
  import opened Http
  import Text

  /** The payload a login signs into its token and the guard hands to the routes. */
  datatype Claims = Claims(id: int, email: string, nome: Option<string>, isAdmin: bool)

  /** What `jwt.verify` concludes: the decoded payload, a `TokenExpiredError`, or any other error. */
  datatype Verdict = Valid(claims: Claims) | Expired | Invalid

  /** A middleware either lets the request through with the session's claims or answers it. */
  datatype Gate = Admit(claims: Claims) | Deny(reply: Reply)

  const NoToken := "Acesso negado. Nenhum token fornecido."
  const SessionExpired := "Sessão expirada. Faça login novamente."
  const BadToken := "Token inválido."
  const AdminsOnly := "Acesso negado. Rota exclusiva para administradores."

  /** `authHeader && authHeader.split(' ')[1]`, with every falsy result (a missing header,
      an empty one, a missing or empty second word) as `None`. */
  function TokenOf(header: Option<string>): (r: Option<string>)
    ensures r.Some? ==> r.value != "" && ' ' !in r.value
  {
    if !Text.Truthy(header) then None
    else
      var words := Text.Split(header.value, ' ');
      if |words| >= 2 && words[1] != "" then Some(words[1]) else None
  }

  /** The scheme word is not checked: any word, a space and a token yields that token. */
  lemma TokenAfterAnyScheme(scheme: string, token: string)
    requires ' ' !in scheme && ' ' !in token && token != ""
    ensures TokenOf(Some(scheme + " " + token)) == Some(token)
  {
    Text.SplitThrough(scheme, token, ' ');
    Text.SplitPlain(token, ' ');
  }

  /** Only the second word counts; whatever follows another space is ignored. */
  lemma TokenIgnoresRest(scheme: string, token: string, rest: string)
    requires ' ' !in scheme && ' ' !in token && token != ""
    ensures TokenOf(Some(scheme + " " + token + " " + rest)) == Some(token)
  {
    Text.SplitThrough(scheme, token + " " + rest, ' ');
    Text.SplitThrough(token, rest, ' ');
    assert scheme + " " + token + " " + rest == scheme + [' '] + (token + [' '] + rest);
  }

  /** A header without a space carries no token. */
  lemma NoSpaceNoToken(header: string)
    requires ' ' !in header
    ensures TokenOf(Some(header)) == None
  {
    Text.SplitPlain(header, ' ');
  }

  /** `verificarToken`: 401 without a token, 401 for an expired one, 403 for any other
      failure, and the token's claims otherwise. */
  function VerificarToken(header: Option<string>, verify: string -> Verdict): (g: Gate)
    ensures g.Admit? <==> TokenOf(header).Some? && verify(TokenOf(header).value).Valid?
    ensures g.Admit? ==> verify(TokenOf(header).value) == Valid(g.claims)
    ensures g == Deny(Reply(Unauthorized, NoToken)) <==> TokenOf(header).None?
    ensures g == Deny(Reply(Unauthorized, SessionExpired)) <==> TokenOf(header).Some? && verify(TokenOf(header).value).Expired?
    ensures g == Deny(Reply(Forbidden, BadToken)) <==> TokenOf(header).Some? && verify(TokenOf(header).value).Invalid?
  {
    match TokenOf(header)
    case None => Deny(Reply(Unauthorized, NoToken))
    case Some(token) =>
      match verify(token)
      case Expired => Deny(Reply(Unauthorized, SessionExpired))
      case Invalid => Deny(Reply(Forbidden, BadToken))
      case Valid(claims) => Admit(claims)
  }

  /** `verificarAdmin`, which runs after `verificarToken`: 403 unless the claims say admin. */
  function VerificarAdmin(claims: Claims): (g: Gate)
    ensures g.Admit? <==> claims.isAdmin
    ensures g.Admit? ==> g.claims == claims
    ensures g.Deny? ==> g.reply == Reply(Forbidden, AdminsOnly)
  {
    if !claims.isAdmin then Deny(Reply(Forbidden, AdminsOnly)) else Admit(claims)
  }

  /** `[verificarToken, verificarAdmin]`, the chain in front of the product routes. A request
      gets through only with a valid token whose claims say admin, and then carries those claims. */
  function AdminChain(header: Option<string>, verify: string -> Verdict): (g: Gate)
    ensures g.Admit? <==> TokenOf(header).Some? && verify(TokenOf(header).value).Valid?
                          && verify(TokenOf(header).value).claims.isAdmin
    ensures g.Admit? ==> g.claims.isAdmin && verify(TokenOf(header).value) == Valid(g.claims)
    ensures VerificarToken(header, verify).Deny? ==> g == VerificarToken(header, verify)
  {
    match VerificarToken(header, verify)
    case Deny(reply) => Deny(reply)
    case Admit(claims) => VerificarAdmin(claims)
  }

  // ---------------------------------------------------------------------------
  // Login

  /** The result of `POST /api/auth/login`. */
  datatype LoginResult = LoggedIn(message: string, token: string, user: Claims) | LoginDenied(reply: Reply)

  const Missing := "Email e senha são obrigatórios."
  const UnknownUser := "Usuário não encontrado."
  const WrongPassword := "Credenciais inválidas."
  const Welcome := "Login bem-sucedido!"

  /** `SELECT * FROM usuarios WHERE email = ?`: the first row with that email. */
  function FindByEmail(us: seq<User>, email: string): (r: Option<User>)
    ensures r.Some? ==> r.value in us && r.value.email == email
    ensures r.None? <==> !HasUserEmail(us, email)
  {
    if us == [] then None
    else if us[0].email == email then Some(us[0])
    else
      var r := FindByEmail(us[1..], email);
      assert HasUserEmail(us, email) ==> HasUserEmail(us[1..], email) by {
        if HasUserEmail(us, email) {
          var k :| 0 <= k < |us| && us[k].email == email;
          assert us[1..][k - 1] == us[k];
        }
      }
      assert HasUserEmail(us[1..], email) ==> HasUserEmail(us, email) by {
        if HasUserEmail(us[1..], email) {
          var k :| 0 <= k < |us[1..]| && us[1..][k].email == email;
          assert us[k + 1] == us[1..][k];
        }
      }
      r
  }

  /** With unique emails the row found is the one row with that email. */
  lemma FindByEmailUnique(us: seq<User>, k: int)
    requires UniqueEmails(us) && 0 <= k < |us|
    ensures FindByEmail(us, us[k].email) == Some(us[k])
  {
    var r := FindByEmail(us, us[k].email);
    var j :| 0 <= j < |us| && us[j] == r.value;
  }

  /** The token payload: `nome_completo || nome_fantasia` as the name, the admin flag as a boolean. */
  function Payload(u: User): (c: Claims)
    ensures c.id == u.id && c.email == u.email && c.isAdmin == u.isAdmin
    ensures Text.Truthy(u.nomeCompleto) ==> c.nome == u.nomeCompleto
    ensures !Text.Truthy(u.nomeCompleto) ==> c.nome == u.nomeFantasia
  {
    Claims(u.id, u.email, if Text.Truthy(u.nomeCompleto) then u.nomeCompleto else u.nomeFantasia, u.isAdmin)
  }

  /** The login route: 400 without both fields, 404 for an unknown email, 401 for a wrong
      password, and otherwise a signed token with the user's payload. */
  function Login(email: Option<string>, senha: Option<string>, us: seq<User>,
                 compare: (string, string) -> bool, sign: Claims -> string): (r: LoginResult)
    ensures r.LoggedIn? ==> r.message == Welcome && r.token == sign(r.user)
  {
    if !Text.Truthy(email) || !Text.Truthy(senha) then LoginDenied(Reply(BadRequest, Missing))
    else
      match FindByEmail(us, email.value)
      case None => LoginDenied(Reply(NotFound, UnknownUser))
      case Some(u) =>
        if !compare(senha.value, u.senhaHash) then LoginDenied(Reply(Unauthorized, WrongPassword))
        else
          var payload := Payload(u);
          LoggedIn(Welcome, sign(payload), payload)
  }

  /** Login succeeds exactly for a present email and password where the user with that
      email exists and the password matches its hash; the session then describes that user. */
  lemma LoginSucceedsIff(email: Option<string>, senha: Option<string>, us: seq<User>,
                         compare: (string, string) -> bool, sign: Claims -> string)
    requires UniqueEmails(us)
    ensures Login(email, senha, us, compare, sign).LoggedIn? <==>
              Text.Truthy(email) && Text.Truthy(senha)
              && exists k :: 0 <= k < |us| && us[k].email == email.value && compare(senha.value, us[k].senhaHash)
    ensures forall k :: 0 <= k < |us| && Login(email, senha, us, compare, sign).LoggedIn? && us[k].email == email.value
              ==> Login(email, senha, us, compare, sign).user == Payload(us[k])
  {
    if Text.Truthy(email) && Text.Truthy(senha) {
      if exists k :: 0 <= k < |us| && us[k].email == email.value {
        var k :| 0 <= k < |us| && us[k].email == email.value;
        FindByEmailUnique(us, k);
        forall j | 0 <= j < |us| && us[j].email == email.value ensures us[j] == us[k] {
          FindByEmailUnique(us, j);
        }
      }
    }
  }

  /** Each kind of failure has its own status: 400, 404 and 401. */
  lemma LoginFailures(email: Option<string>, senha: Option<string>, us: seq<User>,
                      compare: (string, string) -> bool, sign: Claims -> string)
    ensures var r := Login(email, senha, us, compare, sign);
            && (r == LoginDenied(Reply(BadRequest, Missing)) <==> !Text.Truthy(email) || !Text.Truthy(senha))
            && (r == LoginDenied(Reply(NotFound, UnknownUser)) <==>
                  Text.Truthy(email) && Text.Truthy(senha) && !HasUserEmail(us, email.value))
            && (r == LoginDenied(Reply(Unauthorized, WrongPassword)) <==>
                  && Text.Truthy(email) && Text.Truthy(senha) && HasUserEmail(us, email.value)
                  && !compare(senha.value, FindByEmail(us, email.value).value.senhaHash))
  {
  }

  /** `jwt.verify` recognises what `jwt.sign` produced (within its lifetime) and a signed
      token is one word. */
  ghost predicate HonestSigner(sign: Claims -> string, verify: string -> Verdict)
  {
    forall c :: sign(c) != "" && ' ' !in sign(c) && verify(sign(c)) == Valid(c)
  }

  /** The session round trip: the token a login returns, sent back as `Bearer <token>`,
      passes `verificarToken` with exactly the login's payload, and passes the admin chain
      exactly when that user is an admin. */
  lemma LoginThenGuard(email: Option<string>, senha: Option<string>, us: seq<User>,
                       compare: (string, string) -> bool, sign: Claims -> string, verify: string -> Verdict)
    requires HonestSigner(sign, verify)
    requires Login(email, senha, us, compare, sign).LoggedIn?
    ensures var r := Login(email, senha, us, compare, sign);
            && VerificarToken(Some("Bearer " + r.token), verify) == Admit(r.user)
            && (AdminChain(Some("Bearer " + r.token), verify).Admit? <==> r.user.isAdmin)
  {
    var r := Login(email, senha, us, compare, sign);
    var c := r.user;
    assert r.token == sign(c);
    assert sign(c) != "" && ' ' !in sign(c) && verify(sign(c)) == Valid(c);
    TokenAfterAnyScheme("Bearer", r.token);
    assert "Bearer" + " " + r.token == "Bearer " + r.token;
    assert TokenOf(Some("Bearer " + r.token)) == Some(r.token);
  }

  /** A user who is not an admin can log in but never gets through the admin chain. */
  lemma NonAdminNeverAdmitted(header: Option<string>, verify: string -> Verdict, u: User)
    requires !u.isAdmin
    requires TokenOf(header).Some? && verify(TokenOf(header).value) == Valid(Payload(u))
    ensures AdminChain(header, verify) == Deny(Reply(Forbidden, AdminsOnly))
  {
  }
}

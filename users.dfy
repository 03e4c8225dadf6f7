/** Accounts: the row `POST /api/auth/registrar` inserts for a natural person (PF) or a
    company (PJ), and the four fields `PUT /api/auth/me` rewrites. */
module Users {
  import opened Wrappers
  import opened Schema
  import opened Http
  import Text

  /** The request body of a registration; every field may be missing. */
  datatype Registration = Registration(
    tipo: Option<string>,
    email: Option<string>,
    senha: Option<string>,
    nomeCompleto: Option<string>,
    cpf: Option<string>,
    rg: Option<string>,
    razaoSocial: Option<string>,
    nomeFantasia: Option<string>,
    cnpj: Option<string>,
    inscricaoEstadual: Option<string>,
    celular: Option<string>,
    telefone: Option<string>,
    nascimento: Option<string>)

  const PF := "PF"
  const PJ := "PJ"
  const RequiredFields := "Email, senha e tipo são obrigatórios."
  const InvalidTipo := "Tipo de usuário inválido."

  /** `v || null`: falsy values are stored as `NULL`. */
  function OrNull(v: Option<string>): (r: Option<string>)
    ensures r.None? || Text.Truthy(r)
    ensures Text.Truthy(v) ==> r == v
    ensures !Text.Truthy(v) ==> r.None?
  {
    if Text.Truthy(v) then v else None
  }

  /** The checks made before anything is written: 400 when email, password or type is
      missing, 400 when the type is neither PF nor PJ. */
  function CheckRegistration(req: Registration): (r: Option<Reply>)
    ensures r.None? <==> Text.Truthy(req.email) && Text.Truthy(req.senha) && (req.tipo == Some(PF) || req.tipo == Some(PJ))
    ensures !Text.Truthy(req.email) || !Text.Truthy(req.senha) || !Text.Truthy(req.tipo) ==> r == Some(Reply(BadRequest, RequiredFields))
    ensures Text.Truthy(req.email) && Text.Truthy(req.senha) && Text.Truthy(req.tipo) && req.tipo.value != PF && req.tipo.value != PJ
            ==> r == Some(Reply(BadRequest, InvalidTipo))
  {
    if !Text.Truthy(req.email) || !Text.Truthy(req.senha) || !Text.Truthy(req.tipo) then Some(Reply(BadRequest, RequiredFields))
    else if req.tipo.value == PF || req.tipo.value == PJ then None
    else Some(Reply(BadRequest, InvalidTipo))
  }

  /** The row a valid registration inserts. PF rows get the personal document `rg`;
      PJ rows get the company's name, trade name, CNPJ and state registration. */
  function NewUser(req: Registration, id: int, senhaHash: string): (u: User)
    requires CheckRegistration(req).None?
    ensures u.id == id && u.tipo == req.tipo.value && u.email == req.email.value && u.senhaHash == senhaHash
    ensures !u.isAdmin
    ensures u.tipo == PF ==> u.razaoSocial.None? && u.nomeFantasia.None? && u.cnpj.None? && u.inscricaoEstadual.None?
    ensures u.tipo == PJ ==> u.rg.None?
  {
    var t, e := req.tipo.value, req.email.value;
    if t == PF then
      User(id, t, e, senhaHash, OrNull(req.nomeCompleto), OrNull(req.cpf), OrNull(req.rg),
           None, None, None, None,
           OrNull(req.celular), OrNull(req.telefone), OrNull(req.nascimento), false)
    else
      User(id, t, e, senhaHash, OrNull(req.nomeCompleto), OrNull(req.cpf), None,
           OrNull(req.razaoSocial), OrNull(req.nomeFantasia), OrNull(req.cnpj), OrNull(req.inscricaoEstadual),
           OrNull(req.celular), OrNull(req.telefone), OrNull(req.nascimento), false)
  }

  /** Every optional column of a user row. */
  function OptionalFields(u: User): seq<Option<string>>
  {
    [u.nomeCompleto, u.cpf, u.rg, u.razaoSocial, u.nomeFantasia, u.cnpj, u.inscricaoEstadual,
     u.celular, u.telefone, u.dataNascimento]
  }

  /** A new row never stores an empty string: every optional column is `NULL` or non-empty. */
  lemma NewUserStoresNoFalsyValue(req: Registration, id: int, senhaHash: string)
    requires CheckRegistration(req).None?
    ensures forall v :: v in OptionalFields(NewUser(req, id, senhaHash)) ==> v.None? || Text.Truthy(v)
  {
  }

  /** Each optional column of a new row holds the request's value for it whenever that value
      is truthy and the column belongs to the account type; the birth date comes from `nascimento`. */
  lemma NewUserKeepsGivenValues(req: Registration, id: int, senhaHash: string)
    requires CheckRegistration(req).None?
    ensures var u := NewUser(req, id, senhaHash);
            && (Text.Truthy(req.nomeCompleto) ==> u.nomeCompleto == req.nomeCompleto)
            && (Text.Truthy(req.cpf) ==> u.cpf == req.cpf)
            && (Text.Truthy(req.celular) ==> u.celular == req.celular)
            && (Text.Truthy(req.telefone) ==> u.telefone == req.telefone)
            && (Text.Truthy(req.nascimento) ==> u.dataNascimento == req.nascimento)
            && (u.tipo == PF && Text.Truthy(req.rg) ==> u.rg == req.rg)
            && (u.tipo == PJ && Text.Truthy(req.razaoSocial) ==> u.razaoSocial == req.razaoSocial)
            && (u.tipo == PJ && Text.Truthy(req.nomeFantasia) ==> u.nomeFantasia == req.nomeFantasia)
            && (u.tipo == PJ && Text.Truthy(req.cnpj) ==> u.cnpj == req.cnpj)
            && (u.tipo == PJ && Text.Truthy(req.inscricaoEstadual) ==> u.inscricaoEstadual == req.inscricaoEstadual)
  {
  }

  /** Each optional column of a new row is `NULL` whenever the request's value for it is
      missing or empty, and always for the columns that do not belong to the account type. */
  lemma NewUserNullsFalsyValues(req: Registration, id: int, senhaHash: string)
    requires CheckRegistration(req).None?
    ensures var u := NewUser(req, id, senhaHash);
            && (!Text.Truthy(req.nomeCompleto) ==> u.nomeCompleto.None?)
            && (!Text.Truthy(req.cpf) ==> u.cpf.None?)
            && (!Text.Truthy(req.celular) ==> u.celular.None?)
            && (!Text.Truthy(req.telefone) ==> u.telefone.None?)
            && (!Text.Truthy(req.nascimento) ==> u.dataNascimento.None?)
            && (u.tipo == PF ==> (!Text.Truthy(req.rg) <==> u.rg.None?))
            && (u.tipo == PJ ==> (!Text.Truthy(req.razaoSocial) <==> u.razaoSocial.None?))
            && (u.tipo == PJ ==> (!Text.Truthy(req.nomeFantasia) <==> u.nomeFantasia.None?))
            && (u.tipo == PJ ==> (!Text.Truthy(req.cnpj) <==> u.cnpj.None?))
            && (u.tipo == PJ ==> (!Text.Truthy(req.inscricaoEstadual) <==> u.inscricaoEstadual.None?))
  {
  }

  // ---------------------------------------------------------------------------
  // Profile update

  /** The body of `PUT /api/auth/me`. A missing field is bound as `NULL`; an empty string
      is stored as it is. */
  datatype ProfileData = ProfileData(
    nomeCompleto: Option<string>, celular: Option<string>, telefone: Option<string>, nomeFantasia: Option<string>)

  const ProfileUpdated := "Perfil atualizado com sucesso!"

  /** `UPDATE usuarios SET nome_completo, celular, telefone, nome_fantasia`: those four columns
      take the given values, and every other column (email and password hash included) stays. */
  function UpdateProfile(u: User, d: ProfileData): (r: User)
    ensures r.nomeCompleto == d.nomeCompleto && r.celular == d.celular
    ensures r.telefone == d.telefone && r.nomeFantasia == d.nomeFantasia
    ensures r.id == u.id && r.tipo == u.tipo && r.email == u.email && r.senhaHash == u.senhaHash
    ensures r.cpf == u.cpf && r.rg == u.rg && r.razaoSocial == u.razaoSocial && r.cnpj == u.cnpj
    ensures r.inscricaoEstadual == u.inscricaoEstadual && r.dataNascimento == u.dataNascimento
    ensures r.isAdmin == u.isAdmin
  {
    u.(nomeCompleto := d.nomeCompleto, celular := d.celular, telefone := d.telefone, nomeFantasia := d.nomeFantasia)
  }

  /** `... WHERE id = ?` over the whole table: the row with that id is updated, the others stay. */
  function UpdateWhere(us: seq<User>, id: int, d: ProfileData): (r: seq<User>)
    ensures |r| == |us|
    ensures forall k :: 0 <= k < |us| ==> r[k] == (if us[k].id == id then UpdateProfile(us[k], d) else us[k])
  {
    seq(|us|, k requires 0 <= k < |us| => if us[k].id == id then UpdateProfile(us[k], d) else us[k])
  }

  /** Updating a profile twice with the same data is the same as updating it once. */
  lemma UpdateWhereIdempotent(us: seq<User>, id: int, d: ProfileData)
    ensures UpdateWhere(UpdateWhere(us, id, d), id, d) == UpdateWhere(us, id, d)
  {
  }

  /** A profile update keeps the emails of the table, so it keeps them unique. */
  lemma UpdateWhereKeepsEmails(us: seq<User>, id: int, d: ProfileData)
    ensures UserIds(UpdateWhere(us, id, d)) == UserIds(us)
    ensures UniqueEmails(us) ==> UniqueEmails(UpdateWhere(us, id, d))
    ensures forall e :: HasUserEmail(UpdateWhere(us, id, d), e) <==> HasUserEmail(us, e)
  {
    var r := UpdateWhere(us, id, d);
    forall e ensures HasUserEmail(r, e) <==> HasUserEmail(us, e) {
      if HasUserEmail(us, e) {
        var k :| 0 <= k < |us| && us[k].email == e;
        assert r[k].email == e;
      }
    }
  }
}

/** The rows of the four tables, the keys and `UNIQUE` constraints the schema declares on them,
    and the invariants the routes keep beyond those. */
module Schema {
  import opened Wrappers

  /** A row of `usuarios`. The creation timestamp is a clock value and is not modelled. */
  datatype User = User(
    id: int,
    tipo: string,
    email: string,
    senhaHash: string,
    nomeCompleto: Option<string>,
    cpf: Option<string>,
    rg: Option<string>,
    razaoSocial: Option<string>,
    nomeFantasia: Option<string>,
    cnpj: Option<string>,
    inscricaoEstadual: Option<string>,
    celular: Option<string>,
    telefone: Option<string>,
    dataNascimento: Option<string>,
    isAdmin: bool)

  /** A row of `produtos`; `tags` is a comma-joined string. */
  datatype Product = Product(
    id: int,
    nome: string,
    descricaoCurta: Option<string>,
    descricaoLonga: Option<string>,
    categoria: Option<string>,
    tags: Option<string>,
    destaque: bool)

  /** A row of `produto_imagens`; `ordem` 0 marks the primary image. */
  datatype ProductImage = ProductImage(id: int, produtoId: int, imagemUrl: string, ordem: int)

  /** A row of `orcamentos` (its timestamp is not modelled). */
  datatype Quote = Quote(id: int, usuarioId: int, status: string)

  /** A row of `itens_orcamento`. */
  datatype QuoteItem = QuoteItem(id: int, orcamentoId: int, produtoId: int, quantidade: int)

  /** The status every new quote is written with. */
  const Pendente: string := "Pendente"

  /** `AUTOINCREMENT` keys: ids are positive, strictly increasing in table order and below the next id. */
  predicate KeysBelow(ids: seq<int>, next: int)
  {
    (forall k :: 0 <= k < |ids| ==> 1 <= ids[k] < next)
    && (forall i, j :: 0 <= i < j < |ids| ==> ids[i] < ids[j])
  }

  // The key column of each table, one projection per table: the five row types are distinct
  // datatypes, so each needs its own.
  function UserIds(us: seq<User>): (r: seq<int>)
    ensures |r| == |us| && forall k :: 0 <= k < |us| ==> r[k] == us[k].id
  {
    seq(|us|, k requires 0 <= k < |us| => us[k].id)
  }

  function ProductIds(ps: seq<Product>): (r: seq<int>)
    ensures |r| == |ps| && forall k :: 0 <= k < |ps| ==> r[k] == ps[k].id
  {
    seq(|ps|, k requires 0 <= k < |ps| => ps[k].id)
  }

  function ImageIds(rows: seq<ProductImage>): (r: seq<int>)
    ensures |r| == |rows| && forall k :: 0 <= k < |rows| ==> r[k] == rows[k].id
  {
    seq(|rows|, k requires 0 <= k < |rows| => rows[k].id)
  }

  function QuoteIds(qs: seq<Quote>): (r: seq<int>)
    ensures |r| == |qs| && forall k :: 0 <= k < |qs| ==> r[k] == qs[k].id
  {
    seq(|qs|, k requires 0 <= k < |qs| => qs[k].id)
  }

  function ItemIds(rows: seq<QuoteItem>): (r: seq<int>)
    ensures |r| == |rows| && forall k :: 0 <= k < |rows| ==> r[k] == rows[k].id
  {
    seq(|rows|, k requires 0 <= k < |rows| => rows[k].id)
  }

  /** `email TEXT UNIQUE`. */
  predicate UniqueEmails(us: seq<User>)
  {
    forall i, j :: 0 <= i < j < |us| ==> us[i].email != us[j].email
  }

  predicate HasUserEmail(us: seq<User>, email: string)
  {
    exists k :: 0 <= k < |us| && us[k].email == email
  }

  predicate HasProduct(ps: seq<Product>, id: int)
  {
    exists k :: 0 <= k < |ps| && ps[k].id == id
  }

  /** Every image belongs to a product. The schema declares `FOREIGN KEY(produto_id)`, but SQLite
      does not enforce it (no `PRAGMA foreign_keys`); the modelled routes keep it. */
  predicate ImagesReferenceProducts(ps: seq<Product>, rows: seq<ProductImage>)
  {
    forall k :: 0 <= k < |rows| ==> HasProduct(ps, rows[k].produtoId)
  }

  /** No two images of one product share an `ordem`, so the primary image is unique. The schema
      declares no such constraint; the modelled routes keep it. */
  predicate OrdemUnique(rows: seq<ProductImage>)
  {
    forall i, j :: 0 <= i < j < |rows| && rows[i].produtoId == rows[j].produtoId ==> rows[i].ordem != rows[j].ordem
  }

  predicate HasQuote(qs: seq<Quote>, id: int)
  {
    exists k :: 0 <= k < |qs| && qs[k].id == id
  }

  /** Every quote item belongs to a quote. The schema declares `FOREIGN KEY(orcamento_id)`, but
      SQLite does not enforce it (no `PRAGMA foreign_keys`); the quote route keeps it. */
  predicate ItemsReferenceQuotes(qs: seq<Quote>, rows: seq<QuoteItem>)
  {
    forall k :: 0 <= k < |rows| ==> HasQuote(qs, rows[k].orcamentoId)
  }

  /** Inserting a row with the next `AUTOINCREMENT` key keeps the keys increasing. */
  lemma KeysAppend(ids: seq<int>, next: int)
    requires KeysBelow(ids, next) && next >= 1
    ensures KeysBelow(ids + [next], next + 1)
  {
  }

  /** A row with an email not yet in the table keeps the emails unique. */
  lemma UniqueEmailsAppend(us: seq<User>, u: User)
    requires UniqueEmails(us) && !HasUserEmail(us, u.email)
    ensures UniqueEmails(us + [u])
  {
    var all := us + [u];
    forall i, j | 0 <= i < j < |all| ensures all[i].email != all[j].email {
      if j == |us| { assert all[i] == us[i]; }
    }
  }
}

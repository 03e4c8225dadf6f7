/** The SQLite database behind the routes, as one object holding the five tables and their
    `AUTOINCREMENT` counters, and the routes that write to it. Each route method runs its
    middleware first (`verificarToken`, or `verificarToken` then `verificarAdmin`), then the
    handler. Failures of the database (a faulty `INSERT`, `DELETE` or `COMMIT`) come in as
    boolean parameters that say whether that statement succeeds; a failed transaction leaves
    every table as it was. */
module Database {
  import opened Wrappers
  import opened Schema
  import opened Http
  import Text
  import Users
  import Auth
  import ProductImages
  import Quotes
  import Catalog

  /** The body of the create and update product routes. `destaque` is already its truthiness
      (`!!destaque`). */
  datatype ProductInput = ProductInput(
    nome: Option<string>,
    descricaoCurta: Option<string>,
    descricaoLonga: Option<string>,
    categoria: Option<string>,
    tags: Option<string>,
    destaque: bool,
    imagens: Option<seq<Option<string>>>)

  const EmailTaken := "Este email já está cadastrado."
  const Registered := "Usuário registrado com sucesso!"
  const CreateFailed := "Erro ao criar produto"
  const CommitFailed := "Erro ao finalizar transação"
  const ProductCreated := "Produto e imagens criados com sucesso!"
  const ProductMissing := "Produto não encontrado"
  const UpdateFailed := "Erro ao atualizar produto"
  const DeleteFailed := "Erro ao limpar imagens antigas"
  const ProductUpdated := "Produto atualizado com sucesso!"
  const EmptyCart := "O carrinho está vazio."
  const QuoteFailed := "Erro ao criar orçamento."
  const QuoteCommitFailed := "Erro ao finalizar transação."
  const QuoteSent := "Orçamento solicitado com sucesso!"
  const QuoteSavedNoEmail := "Orçamento salvo, mas houve falha ao enviar o e-mail."

  /** The product row the create route inserts, or the values the update route sets. */
  function NewProduct(id: int, input: ProductInput): (p: Product)
    requires input.nome.Some?
    ensures p.id == id && p.nome == input.nome.value && p.destaque == input.destaque
    ensures p.categoria == input.categoria && p.tags == input.tags
    ensures p.descricaoCurta == input.descricaoCurta && p.descricaoLonga == input.descricaoLonga
  {
    Product(id, input.nome.value, input.descricaoCurta, input.descricaoLonga, input.categoria, input.tags, input.destaque)
  }

  /** `UPDATE produtos SET ... WHERE id = ?`: the row with that id takes the new values, the
      others stay. */
  function SetProduct(ps: seq<Product>, id: int, input: ProductInput): (r: seq<Product>)
    requires input.nome.Some?
    ensures |r| == |ps|
    ensures forall k :: 0 <= k < |ps| ==> r[k] == (if ps[k].id == id then NewProduct(id, input) else ps[k])
  {
    seq(|ps|, k requires 0 <= k < |ps| => if ps[k].id == id then NewProduct(id, input) else ps[k])
  }

  class Store {
    var usuarios: seq<User>
    var produtos: seq<Product>
    var imagens: seq<ProductImage>
    var orcamentos: seq<Quote>
    var itens: seq<QuoteItem>
    var nextUserId: int
    var nextProductId: int
    var nextImageId: int
    var nextQuoteId: int
    var nextItemId: int

    /** The declared constraints, increasing keys below each counter and unique emails, and the
        invariants the modelled routes keep although the database does not enforce them: one
        image per `ordem` and product, and every image and quote item pointing at an existing row. */
    ghost predicate Valid()
      reads this
    {
      && nextUserId >= 1 && nextProductId >= 1 && nextImageId >= 1 && nextQuoteId >= 1 && nextItemId >= 1
      && KeysBelow(UserIds(usuarios), nextUserId) && UniqueEmails(usuarios)
      && CatalogTables(produtos, imagens, nextProductId, nextImageId)
      && QuoteTables(orcamentos, itens, nextQuoteId, nextItemId)
    }

    /** A fresh database: empty tables, every key starting at 1. */
    constructor ()
      ensures Valid()
      ensures usuarios == [] && produtos == [] && imagens == [] && orcamentos == [] && itens == []
      ensures nextUserId == 1 && nextProductId == 1 && nextImageId == 1 && nextQuoteId == 1 && nextItemId == 1
    {
      usuarios, produtos, imagens, orcamentos, itens := [], [], [], [], [];
      nextUserId, nextProductId, nextImageId, nextQuoteId, nextItemId := 1, 1, 1, 1, 1;
    }

    /** `POST /api/auth/registrar`: 400 for a missing field or an unknown type, 409 when the
        email is taken (the `UNIQUE` constraint), and otherwise 201 with the new row's id.
        `hash` stands for `bcrypt.hash`. */
    method Registrar(req: Users.Registration, hash: string -> string) returns (reply: Reply, id: Option<int>)
      requires Valid()
      modifies this`usuarios, this`nextUserId
      ensures Valid()
      ensures id.None? ==> unchanged(this)
      ensures Users.CheckRegistration(req).Some? ==> reply == Users.CheckRegistration(req).value && id.None?
      ensures Text.Truthy(req.email) && Text.Truthy(req.senha) && Text.Truthy(req.tipo)
              && req.tipo.value != Users.PF && req.tipo.value != Users.PJ
              ==> reply == Reply(BadRequest, Users.InvalidTipo) && id.None?
      ensures Users.CheckRegistration(req).None? && HasUserEmail(old(usuarios), req.email.value)
              ==> reply == Reply(Conflict, EmailTaken) && id.None?
      ensures Users.CheckRegistration(req).None? && !HasUserEmail(old(usuarios), req.email.value)
              ==> && reply == Reply(Created, Registered) && id == Some(old(nextUserId))
                  && usuarios == old(usuarios) + [Users.NewUser(req, old(nextUserId), hash(req.senha.value))]
                  && nextUserId == old(nextUserId) + 1
    {
      var check := Users.CheckRegistration(req);
      if check.Some? {
        reply, id := check.value, None;
        return;
      }
      var senhaHash := hash(req.senha.value);
      if HasUserEmail(usuarios, req.email.value) {
        reply, id := Reply(Conflict, EmailTaken), None;
        return;
      }
      var u := Users.NewUser(req, nextUserId, senhaHash);
      UniqueEmailsAppend(usuarios, u);
      KeysAppend(UserIds(usuarios), nextUserId);
      assert UserIds(usuarios + [u]) == UserIds(usuarios) + [nextUserId];
      usuarios := usuarios + [u];
      nextUserId := nextUserId + 1;
      reply, id := Reply(Created, Registered), Some(u.id);
    }

    /** `PUT /api/auth/me`: the session's own row takes the four profile fields. */
    method AtualizarPerfil(header: Option<string>, verify: string -> Auth.Verdict, d: Users.ProfileData) returns (reply: Reply)
      requires Valid()
      modifies this`usuarios
      ensures Valid()
      ensures Auth.VerificarToken(header, verify).Deny? ==>
                reply == Auth.VerificarToken(header, verify).reply && unchanged(this)
      ensures Auth.VerificarToken(header, verify).Admit? ==>
                && reply == Reply(Ok, Users.ProfileUpdated)
                && usuarios == Users.UpdateWhere(old(usuarios), Auth.VerificarToken(header, verify).claims.id, d)
    {
      var gate := Auth.VerificarToken(header, verify);
      if gate.Deny? {
        reply := gate.reply;
        return;
      }
      Users.UpdateWhereKeepsEmails(usuarios, gate.claims.id, d);
      usuarios := Users.UpdateWhere(usuarios, gate.claims.id, d);
      reply := Reply(Ok, Users.ProfileUpdated);
    }

    /** `POST /api/admin/produtos`: only for admins; 500 when the `NOT NULL` name is missing or
        the commit fails; otherwise 201 with the new id, the product appended and its images
        written from the next image id. The new product then has exactly the submitted images
        and no other product's images change. */
    method CriarProduto(header: Option<string>, verify: string -> Auth.Verdict, input: ProductInput, commitOk: bool)
      returns (reply: Reply, id: Option<int>)
      requires Valid()
      modifies this`produtos, this`imagens, this`nextProductId, this`nextImageId
      ensures Valid()
      ensures id.None? ==> unchanged(this)
      ensures Auth.AdminChain(header, verify).Deny? ==> reply == Auth.AdminChain(header, verify).reply && id.None?
      ensures Auth.AdminChain(header, verify).Admit? && input.nome.None? ==> reply == Reply(ServerError, CreateFailed) && id.None?
      ensures Auth.AdminChain(header, verify).Admit? && input.nome.Some? && !commitOk
              ==> reply == Reply(ServerError, CommitFailed) && id.None?
      ensures Auth.AdminChain(header, verify).Admit? && input.nome.Some? && commitOk
              ==> var urls := ProductImages.UrlsOf(input.imagens);
                  && reply == Reply(Created, ProductCreated) && id == Some(old(nextProductId))
                  && produtos == old(produtos) + [NewProduct(old(nextProductId), input)]
                  && imagens == ProductImages.CreateImages(old(imagens), old(nextProductId), urls, old(nextImageId))
                  && nextProductId == old(nextProductId) + 1
                  && nextImageId == old(nextImageId) + |ProductImages.ImageRows(old(nextProductId), urls, old(nextImageId))|
      ensures id.Some? ==>
                ProductImages.ImagesReplaced(imagens, old(imagens), id.value,
                  ProductImages.ImageRows(id.value, ProductImages.UrlsOf(input.imagens), old(nextImageId)))
    {
      var gate := Auth.AdminChain(header, verify);
      if gate.Deny? {
        reply, id := gate.reply, None;
        return;
      }
      if input.nome.None? {
        reply, id := Reply(ServerError, CreateFailed), None;
        return;
      }
      var pid := nextProductId;
      var p := NewProduct(pid, input);
      var rows, nextImage := ProductImages.WriteImages(pid, input.imagens, nextImageId);
      if !commitOk {
        reply, id := Reply(ServerError, CommitFailed), None;
        return;
      }
      CreateKeepsCatalog(produtos, imagens, pid, nextImageId, input);
      produtos := produtos + [p];
      imagens := imagens + rows;
      nextProductId := nextProductId + 1;
      nextImageId := nextImage;
      reply, id := Reply(Created, ProductCreated), Some(pid);
    }

    /** `PUT /api/admin/produtos/:id`, for admins only: 404 for an unknown id; 500 when the
        `NOT NULL` name is missing, the old images cannot be deleted or the commit fails;
        otherwise 200, the row updated, its images replaced by the new ones and every other
        product's images left as they were. */
    method AtualizarProduto(header: Option<string>, verify: string -> Auth.Verdict, id: int, input: ProductInput,
                            deleteOk: bool, commitOk: bool)
      returns (reply: Reply)
      requires Valid()
      modifies this`produtos, this`imagens, this`nextImageId
      ensures Valid()
      ensures reply.status != Ok ==> unchanged(this)
      ensures Auth.AdminChain(header, verify).Deny? ==> reply == Auth.AdminChain(header, verify).reply
      ensures Auth.AdminChain(header, verify).Admit? && !HasProduct(old(produtos), id) ==> reply == Reply(NotFound, ProductMissing)
      ensures Auth.AdminChain(header, verify).Admit? && HasProduct(old(produtos), id) && input.nome.None?
              ==> reply == Reply(ServerError, UpdateFailed)
      ensures Auth.AdminChain(header, verify).Admit? && HasProduct(old(produtos), id) && input.nome.Some? && !deleteOk
              ==> reply == Reply(ServerError, DeleteFailed)
      ensures Auth.AdminChain(header, verify).Admit? && HasProduct(old(produtos), id) && input.nome.Some? && deleteOk && !commitOk
              ==> reply == Reply(ServerError, CommitFailed)
      ensures Auth.AdminChain(header, verify).Admit? && HasProduct(old(produtos), id) && input.nome.Some? && deleteOk && commitOk
              ==> var urls := ProductImages.UrlsOf(input.imagens);
                  && reply == Reply(Ok, ProductUpdated)
                  && produtos == SetProduct(old(produtos), id, input)
                  && imagens == ProductImages.ReplaceImages(old(imagens), id, urls, old(nextImageId))
                  && nextImageId == old(nextImageId) + |ProductImages.ImageRows(id, urls, old(nextImageId))|
      ensures reply.status == Ok ==>
                ProductImages.ImagesReplaced(imagens, old(imagens), id,
                  ProductImages.ImageRows(id, ProductImages.UrlsOf(input.imagens), old(nextImageId)))
    {
      var gate := Auth.AdminChain(header, verify);
      if gate.Deny? {
        reply := gate.reply;
        return;
      }
      if !HasProduct(produtos, id) {
        reply := Reply(NotFound, ProductMissing);
        return;
      }
      if input.nome.None? {
        reply := Reply(ServerError, UpdateFailed);
        return;
      }
      if !deleteOk {
        reply := Reply(ServerError, DeleteFailed);
        return;
      }
      var kept := ProductImages.DeleteImagesOf(imagens, id);
      var rows, nextImage := ProductImages.WriteImages(id, input.imagens, nextImageId);
      if !commitOk {
        reply := Reply(ServerError, CommitFailed);
        return;
      }
      var updated := SetProduct(produtos, id, input);
      UpdateKeepsCatalog(produtos, imagens, id, nextProductId, nextImageId, input);
      produtos := updated;
      imagens := kept + rows;
      nextImageId := nextImage;
      reply := Reply(Ok, ProductUpdated);
    }

    /** `POST /api/orcamentos`, for any session: 400 for a missing or empty cart; 500 when the
        quote cannot be inserted or the commit fails; otherwise 201 with the quote id, one
        `Pendente` quote for the session's user and one item per cart entry, in cart
        order. The message says whether the reads made for the e-mail succeeded (`lookupsOk`). */
    method CriarOrcamento(header: Option<string>, verify: string -> Auth.Verdict, cart: Option<seq<Quotes.CartItem>>,
                          insertOk: bool, commitOk: bool, lookupsOk: bool)
      returns (reply: Reply, quoteId: Option<int>)
      requires Valid()
      modifies this`orcamentos, this`itens, this`nextQuoteId, this`nextItemId
      ensures Valid()
      ensures quoteId.None? ==> unchanged(this)
      ensures Auth.VerificarToken(header, verify).Deny? ==> reply == Auth.VerificarToken(header, verify).reply && quoteId.None?
      ensures Auth.VerificarToken(header, verify).Admit? && (cart.None? || |cart.value| == 0)
              ==> reply == Reply(BadRequest, EmptyCart) && quoteId.None?
      ensures Auth.VerificarToken(header, verify).Admit? && cart.Some? && |cart.value| > 0 && !insertOk
              ==> reply == Reply(ServerError, QuoteFailed) && quoteId.None?
      ensures Auth.VerificarToken(header, verify).Admit? && cart.Some? && |cart.value| > 0 && insertOk && !commitOk
              ==> reply == Reply(ServerError, QuoteCommitFailed) && quoteId.None?
      ensures Auth.VerificarToken(header, verify).Admit? && cart.Some? && |cart.value| > 0 && insertOk && commitOk
              ==> var qid := old(nextQuoteId);
                  && quoteId == Some(qid)
                  && reply == Reply(Created, if lookupsOk then QuoteSent else QuoteSavedNoEmail)
                  && orcamentos == old(orcamentos) + [Quote(qid, Auth.VerificarToken(header, verify).claims.id, Pendente)]
                  && itens == old(itens) + Quotes.ItemRows(qid, cart.value, old(nextItemId))
                  && nextQuoteId == qid + 1
                  && nextItemId == old(nextItemId) + |cart.value|
    {
      var gate := Auth.VerificarToken(header, verify);
      if gate.Deny? {
        reply, quoteId := gate.reply, None;
        return;
      }
      if cart.None? || |cart.value| == 0 {
        reply, quoteId := Reply(BadRequest, EmptyCart), None;
        return;
      }
      if !insertOk {
        reply, quoteId := Reply(ServerError, QuoteFailed), None;
        return;
      }
      var qid := nextQuoteId;
      var quote := Quote(qid, gate.claims.id, Pendente);
      var rows, nextItem := Quotes.WriteItems(qid, cart.value, nextItemId);
      if !commitOk {
        reply, quoteId := Reply(ServerError, QuoteCommitFailed), None;
        return;
      }
      CreateKeepsQuotes(orcamentos, itens, qid, nextItemId, quote, cart.value);
      orcamentos := orcamentos + [quote];
      itens := itens + rows;
      nextQuoteId := nextQuoteId + 1;
      nextItemId := nextItem;
      reply := Reply(Created, if lookupsOk then QuoteSent else QuoteSavedNoEmail);
      quoteId := Some(qid);
    }

    /** `GET /api/produtos` over the current tables. The invariant `Valid` makes every listed
        product appear once, with its primary image, newest first. */
    method ListarProdutos(paginaQ: Option<string>, limiteQ: Option<string>,
                          categoriasQ: Option<string>, tagsQ: Option<string>, searchQ: Option<string>)
      returns (r: Catalog.Listing)
      requires Valid()
      ensures var pg := Catalog.ParsePaging(paginaQ, limiteQ);
              var f := Catalog.ParseFilter(categoriasQ, tagsQ, searchQ);
              && r == Catalog.CatalogPage(produtos, imagens, pg, f)
              && r.produtos == Catalog.WithPrimary(Catalog.Window(Catalog.Reverse(Catalog.Matching(produtos, f)), pg.limite, pg.offset), imagens)
              && forall i, j :: 0 <= i < j < |r.produtos| ==> r.produtos[i].produto.id > r.produtos[j].produto.id
    {
      var countWhere, pageTail, queryParams;
      r, countWhere, pageTail, queryParams := Catalog.ListarProdutos(produtos, imagens, paginaQ, limiteQ, categoriasQ, tagsQ, searchQ);
      var pg := Catalog.ParsePaging(paginaQ, limiteQ);
      var f := Catalog.ParseFilter(categoriasQ, tagsQ, searchQ);
      Catalog.PageIsWindow(produtos, imagens, pg, f);
      Catalog.PageNewestFirst(produtos, imagens, pg, f, nextProductId);
    }
  }

  // ---------------------------------------------------------------------------
  // Facts about the tables the routes rely on

  /** The product and image tables' part of `Valid`: keys below their counters, `ordem`
      unique per product, and every image pointing at a product. */
  ghost predicate CatalogTables(ps: seq<Product>, imgs: seq<ProductImage>, nextP: int, nextI: int)
  {
    && nextP >= 1 && nextI >= 1
    && KeysBelow(ProductIds(ps), nextP) && KeysBelow(ImageIds(imgs), nextI)
    && OrdemUnique(imgs) && ImagesReferenceProducts(ps, imgs)
  }

  /** Creating a product with the next id and its images from the next image id keeps the
      tables consistent; the new id gets exactly the new rows, every other id keeps its images. */
  lemma CreateKeepsCatalog(ps: seq<Product>, imgs: seq<ProductImage>, pid: int, nextI: int, input: ProductInput)
    requires CatalogTables(ps, imgs, pid, nextI) && input.nome.Some?
    ensures var rows := ProductImages.ImageRows(pid, ProductImages.UrlsOf(input.imagens), nextI);
            && CatalogTables(ps + [NewProduct(pid, input)], imgs + rows, pid + 1, nextI + |rows|)
            && ProductImages.ImagesReplaced(imgs + rows, imgs, pid, rows)
  {
    var urls := ProductImages.UrlsOf(input.imagens);
    var rows := ProductImages.ImageRows(pid, urls, nextI);
    var p := NewProduct(pid, input);
    FreshProductHasNoImages(ps, imgs, pid);
    assert ProductImages.ImagesReplaced(imgs + rows, imgs, pid, rows) by {
      forall q ensures ProductImages.ImagesOf(imgs + rows, q) == (if q == pid then rows else ProductImages.ImagesOf(imgs, q)) {
        ProductImages.AppendImagesFrame(imgs, pid, urls, nextI, q);
      }
    }
    assert CatalogTables(ps + [p], imgs + rows, pid + 1, nextI + |rows|) by {
      ProductImages.AppendKeepsOrdemUnique(imgs, pid, urls, nextI);
      ProductImages.AppendKeepsKeys(imgs, pid, urls, nextI);
      KeysAppend(ProductIds(ps), pid);
      assert ProductIds(ps + [p]) == ProductIds(ps) + [pid];
      ReferencesGrow(ps, p, imgs);
      assert HasProduct(ps + [p], pid) by {
        assert (ps + [p])[|ps|] == p;
      }
      ProductImages.AppendKeepsReferences(ps + [p], imgs, pid, urls, nextI);
    }
  }

  /** Updating an existing product and replacing its images keeps the tables consistent;
      the product gets exactly the new rows, every other product keeps its images. */
  lemma UpdateKeepsCatalog(ps: seq<Product>, imgs: seq<ProductImage>, id: int, nextP: int, nextI: int, input: ProductInput)
    requires CatalogTables(ps, imgs, nextP, nextI) && input.nome.Some? && HasProduct(ps, id)
    ensures var rows := ProductImages.ImageRows(id, ProductImages.UrlsOf(input.imagens), nextI);
            var kept := ProductImages.DeleteImagesOf(imgs, id);
            && CatalogTables(SetProduct(ps, id, input), kept + rows, nextP, nextI + |rows|)
            && ProductImages.ImagesReplaced(kept + rows, imgs, id, rows)
  {
    var urls := ProductImages.UrlsOf(input.imagens);
    var rows := ProductImages.ImageRows(id, urls, nextI);
    var kept := ProductImages.DeleteImagesOf(imgs, id);
    var updated := SetProduct(ps, id, input);
    assert ProductImages.ImagesReplaced(kept + rows, imgs, id, rows) by {
      forall q ensures ProductImages.ImagesOf(kept + rows, q) == (if q == id then rows else ProductImages.ImagesOf(imgs, q)) {
        ProductImages.ReplaceImagesFrame(imgs, id, urls, nextI, q);
      }
    }
    assert OrdemUnique(kept + rows) by {
      ProductImages.DeleteKeepsOrdemUnique(imgs, id);
      ProductImages.AppendKeepsOrdemUnique(kept, id, urls, nextI);
    }
    assert KeysBelow(ImageIds(kept + rows), nextI + |rows|) by {
      ProductImages.DeleteKeepsKeys(imgs, id, nextI);
      ProductImages.AppendKeepsKeys(kept, id, urls, nextI);
    }
    SetProductKeeps(ps, id, input, nextP);
    assert ImagesReferenceProducts(updated, kept + rows) by {
      ProductImages.DeleteKeepsReferences(ps, imgs, id);
      ReferencesSameIds(ps, updated, kept);
      ProductImages.AppendKeepsReferences(updated, kept, id, urls, nextI);
    }
  }

  /** A product id not yet handed out has no images, since every image points at an existing product. */
  lemma FreshProductHasNoImages(ps: seq<Product>, rows: seq<ProductImage>, next: int)
    requires KeysBelow(ProductIds(ps), next) && ImagesReferenceProducts(ps, rows)
    ensures ProductImages.ImagesOf(rows, next) == []
  {
    forall k | 0 <= k < |rows| ensures rows[k].produtoId != next {
      var j :| 0 <= j < |ps| && ps[j].id == rows[k].produtoId;
      assert ProductIds(ps)[j] < next;
    }
    ProductImages.NoImagesOf(rows, next);
  }

  lemma ReferencesGrow(ps: seq<Product>, p: Product, rows: seq<ProductImage>)
    requires ImagesReferenceProducts(ps, rows)
    ensures ImagesReferenceProducts(ps + [p], rows)
  {
    forall k | 0 <= k < |rows| ensures HasProduct(ps + [p], rows[k].produtoId) {
      var j :| 0 <= j < |ps| && ps[j].id == rows[k].produtoId;
      assert (ps + [p])[j] == ps[j];
    }
  }

  lemma ReferencesSameIds(ps: seq<Product>, qs: seq<Product>, rows: seq<ProductImage>)
    requires ProductIds(ps) == ProductIds(qs) && ImagesReferenceProducts(ps, rows)
    ensures ImagesReferenceProducts(qs, rows)
  {
    forall k | 0 <= k < |rows| ensures HasProduct(qs, rows[k].produtoId) {
      var j :| 0 <= j < |ps| && ps[j].id == rows[k].produtoId;
      assert ProductIds(ps)[j] == ProductIds(qs)[j];
    }
  }

  /** An update keeps every product id, so the keys and the references stay valid. */
  lemma SetProductKeeps(ps: seq<Product>, id: int, input: ProductInput, next: int)
    requires input.nome.Some?
    ensures ProductIds(SetProduct(ps, id, input)) == ProductIds(ps)
    ensures KeysBelow(ProductIds(ps), next) ==> KeysBelow(ProductIds(SetProduct(ps, id, input)), next)
  {
    var r := SetProduct(ps, id, input);
    assert forall k :: 0 <= k < |ps| ==> ProductIds(r)[k] == ProductIds(ps)[k];
  }

  /** The quote tables' part of `Valid`: keys below their counters and every item pointing
      at a quote. */
  ghost predicate QuoteTables(qs: seq<Quote>, items: seq<QuoteItem>, nextQ: int, nextI: int)
  {
    && nextQ >= 1 && nextI >= 1
    && KeysBelow(QuoteIds(qs), nextQ) && KeysBelow(ItemIds(items), nextI) && ItemsReferenceQuotes(qs, items)
  }

  /** Inserting a quote with the next id and its items from the next item id keeps the quote
      tables consistent. */
  lemma CreateKeepsQuotes(qs: seq<Quote>, items: seq<QuoteItem>, qid: int, nextI: int, quote: Quote, cart: seq<Quotes.CartItem>)
    requires QuoteTables(qs, items, qid, nextI) && quote.id == qid
    ensures QuoteTables(qs + [quote], items + Quotes.ItemRows(qid, cart, nextI), qid + 1, nextI + |cart|)
  {
    KeysAppend(QuoteIds(qs), qid);
    assert QuoteIds(qs + [quote]) == QuoteIds(qs) + [qid];
    QuotesGrow(qs, quote, items);
    assert HasQuote(qs + [quote], qid) by {
      assert (qs + [quote])[|qs|] == quote;
    }
    Quotes.ItemRowsShape(qid, cart, qs + [quote], items, nextI);
  }

  lemma QuotesGrow(qs: seq<Quote>, q: Quote, rows: seq<QuoteItem>)
    requires ItemsReferenceQuotes(qs, rows)
    ensures ItemsReferenceQuotes(qs + [q], rows)
  {
    forall k | 0 <= k < |rows| ensures HasQuote(qs + [q], rows[k].orcamentoId) {
      var j :| 0 <= j < |qs| && qs[j].id == rows[k].orcamentoId;
      assert (qs + [q])[j] == qs[j];
    }
  }

  // ---------------------------------------------------------------------------
  // Registration, profile and login together

  lemma {:induction false} FindByEmailAppend(us: seq<User>, u: User)
    requires !HasUserEmail(us, u.email)
    ensures Auth.FindByEmail(us + [u], u.email) == Some(u)
  {
    if us != [] {
      assert (us + [u])[1..] == us[1..] + [u];
      FindByEmailAppend(us[1..], u);
    }
  }

  /** A registration that succeeds can be followed by a login with the same email and
      password (given that `bcrypt.compare` accepts a password against its own hash); the
      session describes the new row and is never an admin's. */
  lemma RegisteredUserCanLogIn(us: seq<User>, req: Users.Registration, id: int,
                               hash: string -> string, compare: (string, string) -> bool, sign: Auth.Claims -> string)
    requires Users.CheckRegistration(req).None? && !HasUserEmail(us, req.email.value)
    requires compare(req.senha.value, hash(req.senha.value))
    ensures var u := Users.NewUser(req, id, hash(req.senha.value));
            var r := Auth.Login(req.email, req.senha, us + [u], compare, sign);
            && r == Auth.LoggedIn(Auth.Welcome, sign(Auth.Payload(u)), Auth.Payload(u))
            && r.user.id == id && r.user.email == req.email.value && !r.user.isAdmin
  {
    var u := Users.NewUser(req, id, hash(req.senha.value));
    FindByEmailAppend(us, u);
  }

  lemma {:induction false} FindByEmailUpdate(us: seq<User>, id: int, d: Users.ProfileData, e: string)
    ensures Auth.FindByEmail(Users.UpdateWhere(us, id, d), e)
            == match Auth.FindByEmail(us, e)
               case None => None
               case Some(u) => Some(if u.id == id then Users.UpdateProfile(u, d) else u)
  {
    if us != [] {
      assert Users.UpdateWhere(us, id, d)[1..] == Users.UpdateWhere(us[1..], id, d);
      FindByEmailUpdate(us[1..], id, d, e);
    }
  }

  /** `PUT /api/auth/me` never touches email or password hash, so every login attempt has the
      same outcome afterwards: a failure is the same failure, and a success opens a session for
      the same account with the same rights. */
  lemma ProfileUpdateKeepsLogin(email: Option<string>, senha: Option<string>, us: seq<User>, id: int, d: Users.ProfileData,
                                compare: (string, string) -> bool, sign: Auth.Claims -> string)
    ensures var before := Auth.Login(email, senha, us, compare, sign);
            var after := Auth.Login(email, senha, Users.UpdateWhere(us, id, d), compare, sign);
            && after.LoggedIn? == before.LoggedIn?
            && (before.LoginDenied? ==> after == before)
            && (after.LoggedIn? ==> after.user.id == before.user.id && after.user.email == before.user.email
                                    && after.user.isAdmin == before.user.isAdmin)
  {
    if Text.Truthy(email) && Text.Truthy(senha) {
      FindByEmailUpdate(us, id, d, email.value);
    }
  }
}

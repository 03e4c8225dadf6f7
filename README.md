# pintare request handling, modelled in Dafny

This project models the request-handling core of the pintare e-commerce backend (`server.js`,
an Express application over SQLite). The handlers modelled are:

- the public catalog `GET /api/produtos`, with paging, filters and the dynamically built `WHERE` clause;
- the filter options `GET /api/filtros`;
- the `verificarToken` and `verificarAdmin` middleware and `POST /api/auth/login`;
- registration `POST /api/auth/registrar` and the profile update `PUT /api/auth/me`;
- the admin product routes `POST /api/admin/produtos` and `PUT /api/admin/produtos/:id`, with their image rows;
- quote submission `POST /api/orcamentos`.

The database is one object, `Database.Store`. It holds the five tables as sequences and the
next `AUTOINCREMENT` key of each table. Its invariant `Valid` combines what `db.js` declares
and SQLite enforces (increasing `AUTOINCREMENT` keys, unique emails) with invariants that the
modelled routes maintain but the database does not enforce: at most one image per `ordem` and
product, and every image and quote item pointing at an existing row. `db.js` declares no
uniqueness on `(produto_id, ordem)`, and its foreign keys are not enforced because no
`PRAGMA foreign_keys` is set. These two invariants hold only because the product update route
is modelled in its corrected form (see Findings): as written, it leaves orphan image rows.
Each route method runs its middleware chain first, then the handler. A committed transaction
is one atomic update of the tables, and a failed one changes nothing.

The pure decisions are functions, each with lemmas about it:

- page parsing, with JavaScript `parseInt` and `||`;
- the filter predicate, with SQLite `LIKE`;
- token extraction, login outcomes and the registration checks.

Where the source grows arrays or loops, the model is imperative:

- `Catalog.BuildWhere` pushes clauses and parameters;
- `FilterOptions.CollectTags` fills a tag set in two nested loops;
- `ProductImages.WriteImages` writes image rows with an `ordem` counter;
- `Quotes.WriteItems` inserts one row per cart entry.

Each of these methods is proved equal to a specification function, and the properties are
proved about that function.

The libraries the routes call enter as function parameters:

- `bcrypt.hash` is `hash`, and `bcrypt.compare` is `compare`;
- `jwt.sign` is `sign`, and `jwt.verify` is `verify`, which returns `Valid(claims)`, `Expired` or `Invalid`;
- whether a database statement succeeds is a boolean parameter (`commitOk`, `deleteOk`, `insertOk`);
- whether the reads made after the commit for the quote e-mail succeed is `lookupsOk`. The send itself is not awaited and catches its own errors, so it never changes the reply.

Files: `wrappers.dfy` (Option), `http.dfy` (status codes, replies), `text.dfy` (JavaScript
string helpers, ordering and sorting), `like.dfy` (SQLite `LIKE`), `jsnumber.dfy`
(`parseInt`, `Math.ceil`), `schema.dfy` (rows, declared constraints and the invariants the routes keep), `catalog.dfy`,
`filters.dfy`, `auth.dfy`, `users.dfy`, `images.dfy`, `quotes.dfy`, `database.dfy`.

## Model

| member | source | states |
|---|---|---|
| JsNumber.ParseIntOr | server.js:27-28 | `parseInt(q) \|\| d`: the default when the query is missing or parses to NaN or 0, else the parsed integer; never 0 when the default is not |
| JsNumber.ParseDecimal | server.js:27-28 | `parseInt` of a decimal numeral (optionally negated) is its value |
| JsNumber.ParseStopsAtNonDigit | server.js:27-28 | `parseInt` stops at the first non-digit: `"12abc"` parses to 12 |
| JsNumber.NoDigitsIsNaN | server.js:27-28 | a string without digits parses to NaN |
| JsNumber.ParseUnsigned | server.js:27-28 | a numeral starting with a digit parses to the value of its leading digits, and a leading `-` negates it |
| JsNumber.CeilDiv | server.js:73 | `Math.ceil(a / b)`: the least r with a <= r·b (for b > 0) |
| Catalog.ParsePaging | server.js:27-29 | pagina and limite are `ParseIntOr` with defaults 1 and 9, never 0, and offset = (pagina − 1)·limite |
| Catalog.PagingDefaults | server.js:27-28 | missing, empty or zero page and limit give page 1, limit 9, offset 0 |
| Catalog.PagingOfDecimals | server.js:27-29 | positive decimal page n and limit m give offset (n − 1)·m |
| Catalog.SplitList | server.js:33-34 | a truthy list parameter splits on commas into at least one piece that joins back to it; a falsy one gives no pieces |
| Catalog.SplitListOfJoin | server.js:33-34 | splitting a comma-joined list of comma-free names gives the names back |
| Catalog.WherePlaceholders | server.js:41-66 | the `WHERE` text has exactly as many `?` as its clauses take parameters |
| Catalog.PageTailPlaceholders | server.js:76-87 | the page query has two more `?` than the filter: `LIMIT ?` and `OFFSET ?` |
| Catalog.ClausePlaceholders | server.js:41-63 | each clause text has one `?` per parameter it takes: one per category, one per tag, two for a search |
| Catalog.WhereHoldsAppend | server.js:66 | the clauses are joined with `AND`: adding a clause conjoins its condition, reading its parameters after the earlier ones |
| Catalog.BuildWhere | server.js:37-66 | one parameter per `?`; the parameters are the categories unchanged, then each tag as `%tag%`, then the search term as `%term%` twice; a product satisfies the built clause iff it matches the filter |
| Catalog.AddCategories | server.js:41-46 | after the category push, the clause means "category in the list" |
| Catalog.AddTags | server.js:49-56 | after the tag push, the clause also requires every tag (AND) to occur in the tag string |
| Catalog.AddSearch | server.js:58-63 | after the search push, the clause also requires the term in the name or the short description |
| Catalog.MatchesPlainText | server.js:41-63 | for terms without `%` or `_`, matching means: category in the set, every tag a case-insensitive substring of the tags, the term a substring of the name or the short description |
| Catalog.SelectIsMatching | server.js:69-88 | running a `WHERE` clause that means the filter selects exactly the matching products, in table order |
| Catalog.Window | server.js:82-83 | `LIMIT ? OFFSET ?`: a contiguous slice, starting at the offset (0 if negative), of length `limite` or what is left (everything for a negative limit) |
| Catalog.ListarProdutos | server.js:24-96 | the handler returns `CatalogPage`: the matching products newest first, one page of them, the current page, the page count and the match count; the page query's values are the filter's values followed by `limite` and `offset`, with one `?` per value, and the count query has one `?` per filter value |
| Catalog.PageAtMostLimit | server.js:82 | a page holds at most `limite` rows |
| Catalog.PageCountCovers | server.js:73 | totalPaginas is the least number of `limite`-sized pages holding all matches |
| Catalog.PageRowsMatch | server.js:76-84 | every listed row is a product of the table that matches the filter |
| Catalog.PrimaryImageAtMostOne | server.js:79 | with unique `ordem` per product, the join on `ordem = 0` finds at most one image per product |
| Catalog.LeftJoinOneToOne | server.js:77-79 | with unique `ordem`, the `LEFT JOIN` yields exactly one row per product, with its primary image or NULL |
| Catalog.PageIsWindow | server.js:76-84 | the page is the offset/limit window of the matching products newest first, each with its primary image |
| Catalog.PageNewestFirst | server.js:81 | the listed product ids strictly decrease |
| Catalog.OffsetInsideIff | server.js:27-73 | the offset lands inside the matches iff pagina <= totalPaginas |
| Catalog.PageNonEmptyIff | server.js:27-88 | a page is non-empty iff its number is at most totalPaginas |
| SqlLike.ContainsPattern | server.js:55-62 | for a term without wildcards, `LIKE '%term%'` holds iff the term occurs in the value, ignoring ASCII case |
| SqlLike.LikeLeadingPercent | server.js:55 | a leading `%` matches any prefix |
| SqlLike.LikeLiteralPrefix | server.js:55 | a literal prefix matches the value's prefix, ignoring ASCII case |
| SqlLike.LikeAnything | server.js:55 | `%` matches every string |
| Text.TrimIsTrimmed | server.js:126 | `trim()` leaves no leading or trailing whitespace |
| Text.TrimIsSlice | server.js:126 | `trim()` removes only whitespace, from the ends |
| Text.TrimIdempotent | server.js:126 | trimming twice is trimming once |
| Text.Split | server.js:124 | `split(',')` gives at least one piece, none holding a comma |
| Text.JoinSplit | server.js:124 | joining the pieces of a split with the separator gives the string back |
| Text.SplitJoin | server.js:124 | splitting a join of separator-free pieces gives the pieces back |
| Text.Sort | server.js:133 | `Array.prototype.sort()`: ascending by code point and a permutation of its input |
| Text.SortedUnique | server.js:133 | two sorted permutations of one list are equal |
| Text.AtMostTotal | server.js:112-133 | the string order is total |
| Text.AtMostTransitive | server.js:112-133 | the string order is transitive |
| Text.AtMostAntisymmetric | server.js:112-133 | the string order is antisymmetric |
| FilterOptions.CategoryOptions | server.js:108-115 | the categories are strictly ascending and exactly the non-empty categories of the table |
| FilterOptions.CategoryOptionsExact | server.js:108-115 | a category is offered iff some product has it and it is not empty |
| FilterOptions.Cleaned | server.js:125-129 | the kept tags are non-empty and trimmed |
| FilterOptions.CleanedMembers | server.js:124-129 | a tag is kept iff it is the non-empty trim of a comma piece |
| FilterOptions.AllTagsMembers | server.js:123-131 | a tag is collected iff it is kept from one of the rows |
| FilterOptions.AddPieces | server.js:124-130 | one row's pieces: the set stays duplicate-free and gains exactly the non-empty trimmed pieces |
| FilterOptions.CollectTags | server.js:118-133 | the nested loops and sort give `TagOptions`: strictly ascending, non-empty trimmed entries, exactly the collected tags |
| FilterOptions.ListarFiltros | server.js:105-139 | the handler returns the category options and the tag options |
| FilterOptions.TagOptionsExact | server.js:118-133 | a tag is offered iff it is the non-empty trim of a comma piece of some product's tag string |
| FilterOptions.TagOptionsShape | server.js:121-133 | the tag list has no duplicates, is sorted, and holds only non-empty trimmed strings |
| Auth.TokenOf | server.js:377-379 | a token found is non-empty and holds no space |
| Auth.TokenAfterAnyScheme | server.js:379 | any first word, a space and a token yields that token, since the scheme is not checked |
| Auth.TokenIgnoresRest | server.js:379 | only the second space-separated word is the token |
| Auth.NoSpaceNoToken | server.js:379-383 | a header without a space has no token |
| Auth.VerificarToken | server.js:376-399 | 401 "no token" iff no token; 401 "session expired" iff the token is expired; 403 iff it is otherwise invalid; admits with the token's claims iff it is valid |
| Auth.VerificarAdmin | server.js:403-409 | admits iff the claims say admin, keeping the claims; otherwise the 403 "admins only" reply |
| Auth.AdminChain | server.js:435 | `[verificarToken, verificarAdmin]` admits iff the token is valid and its claims say admin; a token failure is answered as `verificarToken` answers it |
| Auth.NonAdminNeverAdmitted | server.js:403-406 | a valid session of a non-admin user is always answered 403 by the admin chain |
| Auth.FindByEmail | server.js:283-285 | the row found has the email, and none is found iff no row has it |
| Auth.FindByEmailUnique | server.js:283-285 | with unique emails, the row found is the one with that email |
| Auth.Payload | server.js:302-307 | the payload has the user's id, email and admin flag, and `nome_completo \|\| nome_fantasia` as the name |
| Auth.Login | server.js:276-322 | a successful login answers "Login bem-sucedido!" with the token signed over the returned payload |
| Auth.LoginSucceedsIff | server.js:279-320 | login succeeds iff email and password are given and the user with that email has a hash the password matches; the session then describes that user |
| Auth.LoginFailures | server.js:279-298 | 400 iff email or password is missing; 404 iff both are given and no user has the email; 401 iff the user exists and `bcrypt.compare` rejects the password against their hash |
| Auth.LoginThenGuard | server.js:310-397 | the token of a login, sent as `Bearer <token>`, passes `verificarToken` with the login's payload and passes the admin chain iff the user is an admin |
| Users.OrNull | server.js:220-231 | `v \|\| null`: a truthy value is kept, anything else is NULL |
| Users.CheckRegistration | server.js:210-256 | no error iff email, password and tipo are given and tipo is PF or PJ; a missing field is answered with the "obrigatórios" 400, and a tipo other than PF or PJ with the "Tipo de usuário inválido." 400 |
| Users.NewUser | server.js:216-255 | the new row has the given tipo, email and hash, is not an admin, and has no business fields for PF and no `rg` for PJ |
| Users.NewUserStoresNoFalsyValue | server.js:220-231 | no optional column of a new row holds an empty string |
| Users.NewUserNullsFalsyValues | server.js:220-255 | a missing or empty optional value is stored as NULL; of the type-specific columns, a PF `rg` and the four PJ columns are NULL exactly when the value was falsy |
| Users.NewUserKeepsGivenValues | server.js:220-255 | every truthy optional value that belongs to the account type is stored in its column |
| Users.UpdateProfile | server.js:350-364 | the four profile fields take the given values; every other column, email and hash included, stays |
| Users.UpdateWhere | server.js:350-364 | only the row with the session's id changes |
| Users.UpdateWhereIdempotent | server.js:342-372 | applying the same profile update twice equals applying it once |
| Users.UpdateWhereKeepsEmails | server.js:345-346 | a profile update keeps ids and emails, so it keeps the emails unique |
| ProductImages.Kept | server.js:459-462 | the URLs written are the truthy entries of `imagens`, none empty |
| ProductImages.KeptIsTruthyEntries | server.js:459-462 | a URL is written iff it is a non-empty entry of `imagens` |
| ProductImages.ImageRows | server.js:457-472 | row k has the next id plus k, the product id, the k-th kept URL and `ordem` k |
| ProductImages.WriteImages | server.js:457-472 | the `ordem` loop writes exactly `ImageRows` and uses one id per row |
| ProductImages.ImageRowsShape | server.js:458-468 | the rows belong to the product, have `ordem` 0, 1, 2, … without gaps, the URLs in submitted order, fresh increasing ids and unique `ordem` |
| ProductImages.DeleteImagesOf | server.js:510 | `DELETE ... WHERE produto_id = ?` keeps only rows of other products |
| ProductImages.ReplaceImagesFrame | server.js:510-531 | after delete and insert, the product's images are exactly the new rows and every other product's images are unchanged |
| ProductImages.AppendImagesFrame | server.js:449-472 | appending rows for a product that had no images makes its images exactly the new rows and leaves the others alone |
| ProductImages.AppendKeepsOrdemUnique | server.js:457-472 | appending one product's rows to a table without images of that product keeps `ordem` unique per product |
| ProductImages.DeleteKeepsOrdemUnique | server.js:510 | deleting images keeps `ordem` unique per product |
| ProductImages.DeleteKeepsKeys | server.js:510 | deleting images keeps ids increasing and below the next id |
| ProductImages.AppendKeepsKeys | server.js:457-472 | appended rows keep ids increasing and advance the next id |
| ProductImages.OrphanImagesCounterexample | server.js:498-531 | as written, updating the unknown product 1 leaves an image row for it, and the product later created with id 1 has two images at `ordem` 0 instead of the ones it was created with |
| Quotes.ItemRows | server.js:600-603 | one row per cart entry, in cart order, each for the quote with the entry's product and quantity |
| Quotes.WriteItems | server.js:600-603 | the insert loop writes exactly `ItemRows` and uses one id per cart entry |
| Quotes.ItemRowsHoldCart | server.js:600-603 | reading products and quantities back from the rows gives the cart |
| Quotes.ItemRowsShape | server.js:591-603 | the new rows belong to the quote, keep item ids increasing and reference an existing quote |
| Database.NewProduct | server.js:439-449 | the inserted product row carries the name and the other body fields, and `!!destaque` |
| Database.SetProduct | server.js:491-507 | only the row with that id takes the new values |
| Database.Store.constructor | db.js:15-74 | a fresh database has empty tables, every key starting at 1, and satisfies the constraints |
| Database.Store.Registrar | server.js:205-272 | 400 for a missing field or unknown type, 409 for a taken email, each with no change; else 201 with the next id and exactly the new row appended; the constraints are kept |
| Database.Store.AtualizarPerfil | server.js:342-372 | a denied token changes nothing; otherwise only the session's row changes, as `UpdateWhere` says |
| Database.Store.CriarProduto | server.js:435-485 | a non-admin, a missing name or a failed commit changes nothing; else 201, the product appended with the next id, its images exactly the submitted non-empty URLs and every other product's images unchanged |
| Database.Store.AtualizarProduto | server.js:487-543 | corrected route (see Findings; the source answers 200 for an unknown id and leaves orphan rows): a non-admin, an unknown id, a missing name or a failed delete or commit changes nothing; else 200, the row updated, its images exactly the new URLs and every other product's images unchanged |
| Database.Store.CriarOrcamento | server.js:576-645 | a denied token, an empty cart or a failed insert or commit changes nothing; else 201 with the quote id, one `Pendente` quote for the session's user and one item per cart entry, in order; only the message depends on the reads made after the commit for the e-mail, and the send itself never reaches the reply |
| Database.Store.ListarProdutos | server.js:24-96 | on a valid database the catalog page is the window of matching products newest first, each with its single primary image (the single image relies on the corrected update route, see Findings) |
| Database.CreateKeepsCatalog | server.js:435-485 | a product inserted with the next id and its image rows from the next image id keep keys, `ordem` uniqueness and image references; the new id owns exactly the new rows and every other id keeps its images |
| Database.UpdateKeepsCatalog | server.js:487-543 | updating an existing product and replacing its images keeps the same constraints; the product owns exactly the new rows and every other product keeps its images |
| Database.CreateKeepsQuotes | server.js:576-645 | a quote inserted with the next id and its items from the next item id keep the quote and item keys and every item pointing at a quote |
| Database.FreshProductHasNoImages | db.js:47-53 | an id not yet handed out has no images |
| Database.FindByEmailAppend | server.js:283-285 | a row with an email not in the table is the one found by that email once appended |
| Database.RegisteredUserCanLogIn | server.js:205-322 | after a successful registration, logging in with the same email and password succeeds with a non-admin session for the new row |
| Database.FindByEmailUpdate | server.js:283-364 | after a profile update the lookup by email finds the same row, updated |
| Database.ProfileUpdateKeepsLogin | server.js:276-372 | after a profile update every login attempt has the same outcome; a failure is the same failure, and a success opens a session for the same account with the same rights |

## Left out

- Express routing, the request and response objects, CORS and `app.listen` are I/O. Handlers return a status and a message; the other JSON fields are out-parameters or, for the catalog and the filters, the returned datatype.
- The sqlite3 callback machinery is not modelled: `db.serialize`, prepared statements, and the `dbGetAsync`/`dbAllAsync` wrappers. A transaction is one atomic update, and a failed `COMMIT` is modelled as leaving the tables unchanged.
- The image-insert error path is left out. It issues `ROLLBACK` from a callback while `COMMIT` is already queued, so its outcome depends on callback order. Only the success path and whole-operation failures are modelled.
- bcrypt and JWT are function parameters. The 24-hour token lifetime becomes the `Expired` verdict, and salts and secrets are not modelled.
- The 500 answers for a failing `SELECT` in login, a failing bcrypt call in registration, and a database error other than the `UNIQUE` one are left out. They are database or library failures, not decisions of the handler.
- The `UNIQUE` constraint failure is modelled as a check for an existing row with that email, which has the same outcome.
- `Database.Store.AtualizarPerfil`: if the session's id has no row, the update changes nothing and still answers 200; the model shows this through `UpdateWhere`, and no other effect is modelled.
- The remaining routes are not modelled:
  - `GET /`, `/api/produtos/home`, `/api/produtos/:id`, `GET /api/auth/me`, `/api/perfil`, `/api/admin/check`;
  - the second `GET /api/produtos/:id` at server.js:546, which is shadowed by the one at server.js:173.
- `emailService.js` (PDF and mail sending), `seed.js`, `migrate.js` and the browser code in `js/auth.js` are not part of this model. Of `db.js`, only its keys and its `UNIQUE` and `NOT NULL` declarations appear, in `Database.Store.Valid` and in the route methods.
- Timestamps (`data_criacao`) are not modelled.
- Request values that are not strings are not modelled: arrays in query parameters, numbers or booleans in the body, a non-numeric `:id`, and `itens` that is not an array. Body fields are `Option<string>`, `destaque` is its truthiness, and a cart entry always carries both `id` and `quantity`.
- An entry missing `id` or `quantity` makes its `INSERT` fail a `NOT NULL` column. The source neither checks nor handles that error, so this case is left out.
- Integers are unbounded. JavaScript numbers are doubles, so `parseInt` beyond 2^53 and huge offsets lose precision there and not here.
- `Array.prototype.sort` (the tag list) compares strings by UTF-16 code units; the model compares code points. The two orders differ only for characters outside the Basic Multilingual Plane. `ORDER BY categoria` uses SQLite's BINARY collation, which compares UTF-8 bytes, that is code points, so the category list is modelled exactly.
- `ORDER BY p.id DESC` is modelled as the reverse of table order (rowid order), since the model keeps each table in insertion order. The two agree when ids increase in table order. `Catalog.ListarProdutos` does not assume this. `Catalog.PageNewestFirst` and `Database.Store.ListarProdutos` derive it from the `AUTOINCREMENT` invariant `KeysBelow`.
- `Database.Store.AtualizarProduto` is the corrected route of the Findings table: an unknown id is answered 404 and writes nothing. As written, the source answers 200 and writes image rows for the missing id (server.js:498-531); `ProductImages.UpdateImagesAsWritten` and `ProductImages.OrphanImagesCounterexample` model that behaviour. `Database.Store.Valid` (image references and unique `ordem`) and the single primary image of `Database.Store.ListarProdutos` hold only for the corrected route.
- `Catalog.ListarProdutos`: the text before the WHERE clause (the column list, `FROM produtos p`, the `LEFT JOIN` on `ordem = 0`) is not produced as a string. It holds no placeholder. The method returns the WHERE text and the page query's tail from WHERE through `LIMIT ? OFFSET ?`, and the contract counts the placeholders of both.
- `Catalog.MatchesPlainText`: SQLite `LIKE` is modelled in full (`%`, `_`, ASCII case folding, NULL never matches). The plain-substring reading of the filter is proved only for terms without `%` or `_`, since those characters act as wildcards in the source.
- Concurrency between requests is left out. Each route method runs alone against the store.

## Findings

| source | as written | input that shows it | evidently intended | confidence | as-written member | corrected member |
|---|---|---|---|---|---|---|
| server.js:498-531 | The update route never checks that the product exists. Foreign keys are declared (db.js:52) but not enforced, since no `PRAGMA foreign_keys` is set. So it deletes the images of that id, writes the new image rows for it and answers 200 even when no such product exists. | On an empty catalog: `PUT /api/admin/produtos/1` with `imagens: ["u"]`, then `POST /api/admin/produtos` with `imagens: ["v"]`. The new product gets id 1 and has two images, both with `ordem` 0. | An unknown id is answered 404, as `GET /api/produtos/:id` does, and writes nothing. A created product's images are exactly the submitted ones, and every image belongs to a product. | medium; not executed | ProductImages.OrphanImagesCounterexample | Database.Store.AtualizarProduto |

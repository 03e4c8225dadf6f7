/** `GET /api/produtos`: the catalog query. The handler reads paging and filters from
    the query string, grows a list of WHERE fragments and a list of bound values, counts
    the matching products, and fetches one page of them newest first, each joined with
    its primary image. */
module Catalog {
  import opened Wrappers
  import opened Schema
  import Text
  import SqlLike
  import JsNumber

  // ---------------------------------------------------------------------------
  // Request parsing

  /** The filters of one request: `categorias` and `tags` split on commas, the raw `search`. */
  datatype Filter = Filter(categorias: seq<string>, tags: seq<string>, search: Option<string>)

  /** `q ? q.split(',') : []`. */
  function SplitList(q: Option<string>): (r: seq<string>)
    ensures Text.Truthy(q) ==> |r| >= 1 && Text.Join(r, ",") == q.value
    ensures !Text.Truthy(q) ==> r == []
    ensures forall k :: 0 <= k < |r| ==> ',' !in r[k]
  {
    if Text.Truthy(q) then
      Text.JoinSplit(q.value, ',');
      Text.Split(q.value, ',')
    else []
  }

  function ParseFilter(categoriasQ: Option<string>, tagsQ: Option<string>, searchQ: Option<string>): Filter
  {
    Filter(SplitList(categoriasQ), SplitList(tagsQ), searchQ)
  }

  /** A comma-joined list of comma-free names is read back as that list. */
  lemma SplitListOfJoin(xs: seq<string>)
    requires |xs| >= 1 && Text.Join(xs, ",") != ""
    requires forall k :: 0 <= k < |xs| ==> ',' !in xs[k]
    ensures SplitList(Some(Text.Join(xs, ","))) == xs
  {
    Text.SplitJoin(xs, ',');
  }

  // ---------------------------------------------------------------------------
  // Paging

  datatype Paging = Paging(pagina: int, limite: int, offset: int)

  /** `pagina = parseInt(q) || 1`, `limite = parseInt(q) || 9`, `offset = (pagina - 1) * limite`. */
  function ParsePaging(paginaQ: Option<string>, limiteQ: Option<string>): (r: Paging)
    ensures r.pagina != 0 && r.limite != 0
    ensures r.pagina == JsNumber.ParseIntOr(paginaQ, 1)
    ensures r.limite == JsNumber.ParseIntOr(limiteQ, 9)
    ensures r.offset == (r.pagina - 1) * r.limite
  {
    var pagina := JsNumber.ParseIntOr(paginaQ, 1);
    var limite := JsNumber.ParseIntOr(limiteQ, 9);
    Paging(pagina, limite, (pagina - 1) * limite)
  }

  /** Absent, unparsable and zero parameters fall back to page 1 of 9. */
  lemma PagingDefaults(paginaQ: Option<string>, limiteQ: Option<string>)
    requires paginaQ.None? || paginaQ == Some("0") || paginaQ == Some("")
    requires limiteQ.None? || limiteQ == Some("0") || limiteQ == Some("")
    ensures ParsePaging(paginaQ, limiteQ) == Paging(1, 9, 0)
  {
    JsNumber.ParseDecimal(0);
    assert JsNumber.Decimal(0) == "0";
    JsNumber.NoDigitsIsNaN("");
  }

  /** Decimal page and limit values are used as given. */
  lemma PagingOfDecimals(n: nat, m: nat)
    requires n >= 1 && m >= 1
    ensures ParsePaging(Some(JsNumber.Decimal(n)), Some(JsNumber.Decimal(m))) == Paging(n, m, (n - 1) * m)
  {
    JsNumber.ParseDecimal(n);
    JsNumber.ParseDecimal(m);
  }

  // ---------------------------------------------------------------------------
  // The WHERE clause as SQL text with positional parameters

  /** A value bound to a `?` placeholder. */
  datatype Param = TextParam(s: string) | IntParam(n: int)

  /** The fragments the handler pushes onto `whereClauses`. */
  datatype Clause =
    | CategoryIn(n: nat)   // p.categoria IN (?, ..., ?)
    | AllTagsLike(n: nat)  // ( p.tags LIKE ? AND ... AND p.tags LIKE ? )
    | NameOrShortLike      // (p.nome LIKE ? OR p.descricao_curta LIKE ?)

  const Placeholder: string := "?"

  function Repeat(s: string, n: nat): (r: seq<string>)
    ensures |r| == n && forall k :: 0 <= k < n ==> r[k] == s
  {
    seq(n, _ => s)
  }

  function ClauseSql(c: Clause): string
  {
    match c
    case CategoryIn(n) => "p.categoria IN (" + Text.Join(Repeat(Placeholder, n), ",") + ")"
    case AllTagsLike(n) => "( " + Text.Join(Repeat("p.tags LIKE " + Placeholder, n), " AND ") + " )"
    case NameOrShortLike => "(p.nome LIKE " + Placeholder + " OR p.descricao_curta LIKE " + Placeholder + ")"
  }

  /** Number of values a fragment binds. */
  function Arity(c: Clause): nat
  {
    match c
    case CategoryIn(n) => n
    case AllTagsLike(n) => n
    case NameOrShortLike => 2
  }

  function TotalArity(cs: seq<Clause>): nat
  {
    if cs == [] then 0 else Arity(cs[0]) + TotalArity(cs[1..])
  }

  function ClauseSqls(cs: seq<Clause>): (r: seq<string>)
    ensures |r| == |cs| && forall k :: 0 <= k < |cs| ==> r[k] == ClauseSql(cs[k])
  {
    seq(|cs|, k requires 0 <= k < |cs| => ClauseSql(cs[k]))
  }

  /** `whereClauses.length > 0 ? 'WHERE ' + whereClauses.join(' AND ') : ''`. */
  function WhereSql(cs: seq<Clause>): string
  {
    if |cs| > 0 then "WHERE " + Text.Join(ClauseSqls(cs), " AND ") else ""
  }

  /** The tail of the page query after the WHERE clause. */
  function PageSqlTail(cs: seq<Clause>): string
  {
    WhereSql(cs) + " ORDER BY p.id DESC LIMIT " + Placeholder + " OFFSET " + Placeholder
  }

  function SumCount(xs: seq<string>, c: char): nat
  {
    if xs == [] then 0 else Text.Count(xs[0], c) + SumCount(xs[1..], c)
  }

  lemma {:induction false} CountJoin(xs: seq<string>, sep: string, c: char)
    requires c !in sep
    ensures Text.Count(Text.Join(xs, sep), c) == SumCount(xs, c)
  {
    if |xs| == 1 {
      assert SumCount(xs[1..], c) == 0;
    } else if |xs| > 1 {
      CountJoin(xs[1..], sep, c);
      Text.CountConcat(xs[0] + sep, Text.Join(xs[1..], sep), c);
      Text.CountConcat(xs[0], sep, c);
      Text.CountAbsent(sep, c);
    }
  }

  lemma {:induction false} SumCountRepeat(s: string, n: nat, c: char)
    ensures SumCount(Repeat(s, n), c) == n * Text.Count(s, c)
  {
    if n > 0 {
      assert Repeat(s, n)[1..] == Repeat(s, n - 1);
      SumCountRepeat(s, n - 1, c);
    }
  }

  lemma PlaceholderCount()
    ensures Text.Count(Placeholder, '?') == 1
  {
  }

  lemma ClausePlaceholders(c: Clause)
    ensures Text.Count(ClauseSql(c), '?') == Arity(c)
  {
    PlaceholderCount();
    match c
    case CategoryIn(n) =>
      CountJoin(Repeat(Placeholder, n), ",", '?');
      SumCountRepeat(Placeholder, n, '?');
      Text.CountAround("p.categoria IN (", Text.Join(Repeat(Placeholder, n), ","), ")", '?');
    case AllTagsLike(n) =>
      var like := "p.tags LIKE " + Placeholder;
      Text.CountAround("p.tags LIKE ", Placeholder, "", '?');
      assert "p.tags LIKE " + Placeholder + "" == like;
      CountJoin(Repeat(like, n), " AND ", '?');
      SumCountRepeat(like, n, '?');
      Text.CountAround("( ", Text.Join(Repeat(like, n), " AND "), " )", '?');
    case NameOrShortLike =>
      var a, b := "(p.nome LIKE ", " OR p.descricao_curta LIKE ";
      Text.CountAround(a, Placeholder, b, '?');
      Text.CountAround("", Placeholder, ")", '?');
      assert "" + Placeholder + ")" == Placeholder + ")";
      Text.CountConcat(a + Placeholder + b, Placeholder + ")", '?');
      assert a + Placeholder + b + (Placeholder + ")") == ClauseSql(c);
  }

  lemma {:induction false} SumCountClauses(cs: seq<Clause>)
    ensures SumCount(ClauseSqls(cs), '?') == TotalArity(cs)
  {
    if cs != [] {
      ClausePlaceholders(cs[0]);
      assert ClauseSqls(cs)[1..] == ClauseSqls(cs[1..]);
      SumCountClauses(cs[1..]);
    }
  }

  /** The WHERE clause holds exactly one `?` per value its fragments bind. */
  lemma WherePlaceholders(cs: seq<Clause>)
    ensures Text.Count(WhereSql(cs), '?') == TotalArity(cs)
  {
    if |cs| > 0 {
      CountJoin(ClauseSqls(cs), " AND ", '?');
      SumCountClauses(cs);
      Text.CountAround("WHERE ", Text.Join(ClauseSqls(cs), " AND "), "", '?');
      assert "WHERE " + Text.Join(ClauseSqls(cs), " AND ") + "" == WhereSql(cs);
    }
  }

  /** The page query adds exactly the two placeholders of LIMIT and OFFSET. */
  lemma PageTailPlaceholders(cs: seq<Clause>)
    ensures Text.Count(PageSqlTail(cs), '?') == TotalArity(cs) + 2
  {
    WherePlaceholders(cs);
    LimitOffsetPlaceholders(WhereSql(cs));
  }

  lemma LimitOffsetPlaceholders(w: string)
    ensures Text.Count(w + " ORDER BY p.id DESC LIMIT " + Placeholder + " OFFSET " + Placeholder, '?')
            == Text.Count(w, '?') + 2
  {
    var a, b := " ORDER BY p.id DESC LIMIT ", " OFFSET ";
    PlaceholderCount();
    Text.CountAround(a, Placeholder, b, '?');
    Text.CountConcat(a + Placeholder + b, Placeholder, '?');
    assert w + a + Placeholder + b + Placeholder == w + (a + Placeholder + b + Placeholder);
    Text.CountConcat(w, a + Placeholder + b + Placeholder, '?');
  }

  // ---------------------------------------------------------------------------
  // What the SQL means for one product row

  /** `v LIKE pat`, where a NULL column never matches. */
  predicate LikeParam(pat: Param, v: Option<string>)
  {
    v.Some? && pat.TextParam? && SqlLike.Like(pat.s, v.value)
  }

  /** Truth of one fragment for row `p`, reading its values positionally from `vals`. */
  predicate ClauseHolds(c: Clause, vals: seq<Param>, p: Product)
    requires |vals| == Arity(c)
  {
    match c
    case CategoryIn(n) =>
      p.categoria.Some? && exists k :: 0 <= k < n && vals[k] == TextParam(p.categoria.value)
    case AllTagsLike(n) =>
      forall k :: 0 <= k < n ==> LikeParam(vals[k], p.tags)
    case NameOrShortLike =>
      LikeParam(vals[0], Some(p.nome)) || LikeParam(vals[1], p.descricaoCurta)
  }

  /** The WHERE clause as SQLite evaluates it: the fragments joined by AND, each
      consuming the next values of the parameter list in order. */
  predicate WhereHolds(cs: seq<Clause>, ps: seq<Param>, p: Product)
  {
    cs == [] || (Arity(cs[0]) <= |ps|
                 && ClauseHolds(cs[0], ps[..Arity(cs[0])], p)
                 && WhereHolds(cs[1..], ps[Arity(cs[0])..], p))
  }

  lemma {:induction false} WhereHoldsAppend(cs: seq<Clause>, ps: seq<Param>, c: Clause, vals: seq<Param>, p: Product)
    requires |ps| == TotalArity(cs) && |vals| == Arity(c)
    ensures TotalArity(cs + [c]) == |ps + vals|
    ensures WhereHolds(cs + [c], ps + vals, p) <==> WhereHolds(cs, ps, p) && ClauseHolds(c, vals, p)
  {
    if cs == [] {
      assert cs + [c] == [c] && ps + vals == vals;
      assert vals[..Arity(c)] == vals && [c][1..] == [];
    } else {
      var n := Arity(cs[0]);
      assert (cs + [c])[0] == cs[0] && (cs + [c])[1..] == cs[1..] + [c];
      assert (ps + vals)[..n] == ps[..n] && (ps + vals)[n..] == ps[n..] + vals;
      WhereHoldsAppend(cs[1..], ps[n..], c, vals, p);
    }
  }

  // ---------------------------------------------------------------------------
  // What the filter is meant to select

  /** The pattern `%term%` the handler binds for a tag or a search term. */
  function Wrap(term: string): string
  {
    "%" + term + "%"
  }

  predicate ContainsTerm(v: Option<string>, term: string)
  {
    v.Some? && SqlLike.Like(Wrap(term), v.value)
  }

  /** The category is one of the requested ones (no restriction when none is requested). */
  predicate CategoryOk(f: Filter, p: Product)
  {
    f.categorias == [] || (p.categoria.Some? && p.categoria.value in f.categorias)
  }

  /** Every requested tag occurs in the tag string (AND across tags). */
  predicate TagsOk(f: Filter, p: Product)
  {
    forall t :: t in f.tags ==> ContainsTerm(p.tags, t)
  }

  /** The search term occurs in the name or in the short description. */
  predicate SearchOk(f: Filter, p: Product)
  {
    !Text.Truthy(f.search) || ContainsTerm(Some(p.nome), f.search.value) || ContainsTerm(p.descricaoCurta, f.search.value)
  }

  predicate Matches(f: Filter, p: Product)
  {
    CategoryOk(f, p) && TagsOk(f, p) && SearchOk(f, p)
  }

  /** Without `%` or `_` in the request, the filter is plain membership and
      ASCII-case-insensitive substring tests. */
  lemma MatchesPlainText(f: Filter, p: Product)
    requires forall t :: t in f.tags ==> SqlLike.NoWildcards(t)
    requires Text.Truthy(f.search) ==> SqlLike.NoWildcards(f.search.value)
    ensures Matches(f, p) <==>
      && (f.categorias == [] || (p.categoria.Some? && p.categoria.value in f.categorias))
      && (forall t :: t in f.tags ==> p.tags.Some? && SqlLike.ContainsIgnoringCase(p.tags.value, t))
      && (!Text.Truthy(f.search)
          || SqlLike.ContainsIgnoringCase(p.nome, f.search.value)
          || (p.descricaoCurta.Some? && SqlLike.ContainsIgnoringCase(p.descricaoCurta.value, f.search.value)))
  {
    forall t | t in f.tags && p.tags.Some?
      ensures ContainsTerm(p.tags, t) <==> SqlLike.ContainsIgnoringCase(p.tags.value, t)
    {
      SqlLike.ContainsPattern(t, p.tags.value);
    }
    if Text.Truthy(f.search) {
      SqlLike.ContainsPattern(f.search.value, p.nome);
      if p.descricaoCurta.Some? {
        SqlLike.ContainsPattern(f.search.value, p.descricaoCurta.value);
      }
    }
  }

  function TextParams(xs: seq<string>): (r: seq<Param>)
    ensures |r| == |xs| && forall k :: 0 <= k < |xs| ==> r[k] == TextParam(xs[k])
  {
    seq(|xs|, k requires 0 <= k < |xs| => TextParam(xs[k]))
  }

  function Wrapped(xs: seq<string>): (r: seq<string>)
    ensures |r| == |xs| && forall k :: 0 <= k < |xs| ==> r[k] == Wrap(xs[k])
  {
    seq(|xs|, k requires 0 <= k < |xs| => Wrap(xs[k]))
  }

  /** The values the handler binds to the WHERE placeholders, in order: the categories as
      given, one `%tag%` per tag, and `%term%` twice for a search. */
  function FilterParams(f: Filter): seq<Param>
  {
    TextParams(f.categorias) + TextParams(Wrapped(f.tags))
      + (if Text.Truthy(f.search) then [TextParam(Wrap(f.search.value)), TextParam(Wrap(f.search.value))] else [])
  }

  /** `cs` and `ps` are the WHERE fragments and values for the filter `g`: one placeholder
      per value, the values `FilterParams` lists, and exactly the products `g` accepts. */
  ghost predicate Built(cs: seq<Clause>, ps: seq<Param>, g: Filter)
  {
    && |ps| == TotalArity(cs)
    && ps == FilterParams(g)
    && forall p :: WhereHolds(cs, ps, p) <==> Matches(g, p)
  }

  lemma BuiltEmpty()
    ensures Built([], [], Filter([], [], None))
  {
    assert FilterParams(Filter([], [], None)) == [];
  }

  /** The category fragment bound to the requested categories holds exactly when the row's
      category is one of them. */
  lemma CategoryClauseIff(cats: seq<string>, p: Product)
    ensures ClauseHolds(CategoryIn(|cats|), TextParams(cats), p) <==> p.categoria.Some? && p.categoria.value in cats
  {
    if p.categoria.Some? && p.categoria.value in cats {
      var k :| 0 <= k < |cats| && cats[k] == p.categoria.value;
      assert TextParams(cats)[k] == TextParam(p.categoria.value);
    }
  }

  /** Pushing the category fragment adds the category test. */
  lemma AddCategories(cs: seq<Clause>, ps: seq<Param>, cats: seq<string>)
    requires Built(cs, ps, Filter([], [], None)) && |cats| > 0
    ensures Built(cs + [CategoryIn(|cats|)], ps + TextParams(cats), Filter(cats, [], None))
  {
    var c, vals := CategoryIn(|cats|), TextParams(cats);
    var g := Filter(cats, [], None);
    forall p ensures WhereHolds(cs + [c], ps + vals, p) <==> Matches(g, p) {
      WhereHoldsAppend(cs, ps, c, vals, p);
      CategoryClauseIff(cats, p);
      assert Matches(Filter([], [], None), p);
    }
    WhereHoldsAppend(cs, ps, c, vals, Product(0, "", None, None, None, None, false));
    assert FilterParams(Filter([], [], None)) == [];
    assert FilterParams(g) == vals;
  }

  /** Pushing the tag fragment adds the test that every tag occurs. */
  lemma AddTags(cs: seq<Clause>, ps: seq<Param>, cats: seq<string>, tags: seq<string>)
    requires Built(cs, ps, Filter(cats, [], None)) && |tags| > 0
    ensures Built(cs + [AllTagsLike(|tags|)], ps + TextParams(Wrapped(tags)), Filter(cats, tags, None))
  {
    var c, vals := AllTagsLike(|tags|), TextParams(Wrapped(tags));
    var g0, g := Filter(cats, [], None), Filter(cats, tags, None);
    forall p ensures WhereHolds(cs + [c], ps + vals, p) <==> Matches(g, p) {
      WhereHoldsAppend(cs, ps, c, vals, p);
      assert Matches(g0, p) <==> CategoryOk(g, p);
      if ClauseHolds(c, vals, p) {
        forall t | t in tags ensures ContainsTerm(p.tags, t) {
          var k :| 0 <= k < |tags| && tags[k] == t;
          assert LikeParam(vals[k], p.tags);
        }
      }
      if TagsOk(g, p) {
        forall k | 0 <= k < |tags| ensures LikeParam(vals[k], p.tags) {
          assert tags[k] in tags;
        }
      }
    }
    WhereHoldsAppend(cs, ps, c, vals, Product(0, "", None, None, None, None, false));
    assert TextParams(Wrapped([])) == [];
  }

  /** Pushing the search fragment adds the name-or-short-description test. */
  lemma AddSearch(cs: seq<Clause>, ps: seq<Param>, cats: seq<string>, tags: seq<string>, search: Option<string>)
    requires Built(cs, ps, Filter(cats, tags, None)) && Text.Truthy(search)
    ensures Built(cs + [NameOrShortLike], ps + [TextParam(Wrap(search.value)), TextParam(Wrap(search.value))],
                  Filter(cats, tags, search))
  {
    var vals := [TextParam(Wrap(search.value)), TextParam(Wrap(search.value))];
    var g0, g := Filter(cats, tags, None), Filter(cats, tags, search);
    forall p ensures WhereHolds(cs + [NameOrShortLike], ps + vals, p) <==> Matches(g, p) {
      WhereHoldsAppend(cs, ps, NameOrShortLike, vals, p);
      assert Matches(g0, p) <==> CategoryOk(g, p) && TagsOk(g, p);
    }
    WhereHoldsAppend(cs, ps, NameOrShortLike, vals, Product(0, "", None, None, None, None, false));
  }

  /** A falsy search term adds nothing. */
  lemma NoSearch(cs: seq<Clause>, ps: seq<Param>, cats: seq<string>, tags: seq<string>, search: Option<string>)
    requires Built(cs, ps, Filter(cats, tags, None)) && !Text.Truthy(search)
    ensures Built(cs, ps, Filter(cats, tags, search))
  {
    assert forall p :: Matches(Filter(cats, tags, None), p) <==> Matches(Filter(cats, tags, search), p);
  }

  /** Builds `whereClauses` and `params` with one push per active filter. The SQL it
      produces has one placeholder per bound value, binds the values `FilterParams`
      lists, and selects exactly the products `Matches` accepts. */
  method BuildWhere(f: Filter) returns (whereClauses: seq<Clause>, params: seq<Param>)
    ensures Text.Count(WhereSql(whereClauses), '?') == |params|
    ensures params == FilterParams(f)
    ensures forall p :: WhereHolds(whereClauses, params, p) <==> Matches(f, p)
  {
    whereClauses := [];
    params := [];
    BuiltEmpty();

    if |f.categorias| > 0 {
      AddCategories(whereClauses, params, f.categorias);
      whereClauses := whereClauses + [CategoryIn(|f.categorias|)];
      params := params + TextParams(f.categorias);
    }
    assert Built(whereClauses, params, Filter(f.categorias, [], None));

    if |f.tags| > 0 {
      AddTags(whereClauses, params, f.categorias, f.tags);
      whereClauses := whereClauses + [AllTagsLike(|f.tags|)];
      params := params + TextParams(Wrapped(f.tags));
    }
    assert Built(whereClauses, params, Filter(f.categorias, f.tags, None));

    if Text.Truthy(f.search) {
      var term := Wrap(f.search.value);
      AddSearch(whereClauses, params, f.categorias, f.tags, f.search);
      ghost var before := params;
      whereClauses := whereClauses + [NameOrShortLike];
      params := params + [TextParam(term)];
      params := params + [TextParam(term)];
      assert params == before + [TextParam(term), TextParam(term)];
    } else {
      NoSearch(whereClauses, params, f.categorias, f.tags, f.search);
    }
    assert Built(whereClauses, params, f);
    WherePlaceholders(whereClauses);
  }

  // ---------------------------------------------------------------------------
  // Running the queries

  /** The rows of `ps` the WHERE clause selects, in table order. */
  function Select(ps: seq<Product>, cs: seq<Clause>, params: seq<Param>): (r: seq<Product>)
    ensures |r| <= |ps|
  {
    if ps == [] then []
    else (if WhereHolds(cs, params, ps[0]) then [ps[0]] else []) + Select(ps[1..], cs, params)
  }

  /** The products the filter is meant to select, in table order. */
  function Matching(ps: seq<Product>, f: Filter): (r: seq<Product>)
    ensures |r| <= |ps|
    ensures forall k :: 0 <= k < |r| ==> Matches(f, r[k]) && r[k] in ps
  {
    if ps == [] then []
    else (if Matches(f, ps[0]) then [ps[0]] else []) + Matching(ps[1..], f)
  }

  lemma {:induction false} SelectIsMatching(ps: seq<Product>, cs: seq<Clause>, params: seq<Param>, f: Filter)
    requires forall p :: WhereHolds(cs, params, p) <==> Matches(f, p)
    ensures Select(ps, cs, params) == Matching(ps, f)
  {
    if ps != [] { SelectIsMatching(ps[1..], cs, params, f); }
  }

  function Reverse<T>(s: seq<T>): (r: seq<T>)
    ensures |r| == |s| && forall k :: 0 <= k < |s| ==> r[k] == s[|s| - 1 - k]
  {
    seq(|s|, k requires 0 <= k < |s| => s[|s| - 1 - k])
  }

  /** A product row of the page query: the product and its `ordem = 0` image URL, if any. */
  datatype ProductRow = ProductRow(produto: Product, imagemUrl: Option<string>)

  /** URLs of the images of product `id` with `ordem = 0`, in table order. */
  function PrimaryImages(imagens: seq<ProductImage>, id: int): (r: seq<string>)
    ensures |r| <= |imagens|
  {
    if imagens == [] then []
    else (if imagens[0].produtoId == id && imagens[0].ordem == 0 then [imagens[0].imagemUrl] else [])
         + PrimaryImages(imagens[1..], id)
  }

  /** `LEFT JOIN produto_imagens pi ON p.id = pi.produto_id AND pi.ordem = 0` for one product. */
  function JoinRows(p: Product, imagens: seq<ProductImage>): seq<ProductRow>
  {
    var urls := PrimaryImages(imagens, p.id);
    if urls == [] then [ProductRow(p, None)]
    else seq(|urls|, k requires 0 <= k < |urls| => ProductRow(p, Some(urls[k])))
  }

  function LeftJoin(ps: seq<Product>, imagens: seq<ProductImage>): seq<ProductRow>
  {
    if ps == [] then [] else JoinRows(ps[0], imagens) + LeftJoin(ps[1..], imagens)
  }

  /** Where `OFFSET offset` starts in `n` rows: a negative offset counts as zero. */
  function Start(n: nat, offset: int): (i: nat)
    ensures i <= n
  {
    if offset <= 0 then 0 else if offset > n then n else offset
  }

  /** `LIMIT limit OFFSET offset` as SQLite applies it: the rows from the offset on,
      at most `limit` of them, where a negative limit means no limit. */
  function Window<T>(rows: seq<T>, limit: int, offset: int): (r: seq<T>)
    ensures Start(|rows|, offset) + |r| <= |rows|
    ensures r == rows[Start(|rows|, offset)..Start(|rows|, offset) + |r|]
    ensures |r| == if 0 <= limit < |rows| - Start(|rows|, offset) then limit else |rows| - Start(|rows|, offset)
  {
    var rest := rows[Start(|rows|, offset)..];
    if limit < 0 || limit >= |rest| then rest else rest[..limit]
  }

  /** `SELECT COUNT(*) FROM produtos p <where>`. */
  function RunCount(ps: seq<Product>, cs: seq<Clause>, params: seq<Param>): nat
  {
    |Select(ps, cs, params)|
  }

  /** The page query: the WHERE values come first, LIMIT and OFFSET are the last two. */
  function RunPage(ps: seq<Product>, imagens: seq<ProductImage>, cs: seq<Clause>, queryParams: seq<Param>): seq<ProductRow>
    requires |queryParams| >= 2
    requires queryParams[|queryParams| - 2].IntParam? && queryParams[|queryParams| - 1].IntParam?
  {
    var n := |queryParams|;
    Window(LeftJoin(Reverse(Select(ps, cs, queryParams[..n - 2])), imagens),
           queryParams[n - 2].n, queryParams[n - 1].n)
  }

  /** The JSON the handler returns. */
  datatype Listing = Listing(produtos: seq<ProductRow>, paginaAtual: int, totalPaginas: int, totalProdutos: nat)

  /** What the catalog promises: the matching products newest first, cut to one page,
      with the total count and the number of pages. */
  function CatalogPage(ps: seq<Product>, imagens: seq<ProductImage>, pg: Paging, f: Filter): Listing
    requires pg.limite != 0
  {
    var matching := Matching(ps, f);
    Listing(Window(LeftJoin(Reverse(matching), imagens), pg.limite, pg.offset),
            pg.pagina, JsNumber.CeilDiv(|matching|, pg.limite), |matching|)
  }

  /** The `/api/produtos` handler. Besides the listing it returns the text both queries
      share after `FROM produtos p` (the count query's WHERE clause, and the page query's
      tail from WHERE through `LIMIT ? OFFSET ?`; the column list and the `ordem = 0` join
      before them hold no placeholder) and the page query's values: one per `?`, with
      `limite` and `offset` last. */
  method ListarProdutos(ps: seq<Product>, imagens: seq<ProductImage>,
                        paginaQ: Option<string>, limiteQ: Option<string>,
                        categoriasQ: Option<string>, tagsQ: Option<string>, searchQ: Option<string>)
    returns (r: Listing, countWhere: string, pageTail: string, queryParams: seq<Param>)
    ensures var pg := ParsePaging(paginaQ, limiteQ);
            var f := ParseFilter(categoriasQ, tagsQ, searchQ);
            && r == CatalogPage(ps, imagens, pg, f)
            && queryParams == FilterParams(f) + [IntParam(pg.limite), IntParam(pg.offset)]
            && Text.Count(countWhere, '?') == |FilterParams(f)|
            && Text.Count(pageTail, '?') == |queryParams|
  {
    var pg := ParsePaging(paginaQ, limiteQ);
    var f := ParseFilter(categoriasQ, tagsQ, searchQ);
    var whereClauses, params := BuildWhere(f);

    countWhere := WhereSql(whereClauses);
    var totalProdutos := RunCount(ps, whereClauses, params);
    var totalPaginas := JsNumber.CeilDiv(totalProdutos, pg.limite);

    pageTail := PageSqlTail(whereClauses);
    LimitOffsetPlaceholders(WhereSql(whereClauses));
    queryParams := params + [IntParam(pg.limite), IntParam(pg.offset)];
    var rows := RunPage(ps, imagens, whereClauses, queryParams);

    assert queryParams[..|queryParams| - 2] == params;
    SelectIsMatching(ps, whereClauses, params, f);
    r := Listing(rows, pg.pagina, totalPaginas, totalProdutos);
  }

  // ---------------------------------------------------------------------------
  // Properties of the page

  /** A positive limit bounds the page size. */
  lemma PageAtMostLimit(ps: seq<Product>, imagens: seq<ProductImage>, pg: Paging, f: Filter)
    requires pg.limite > 0
    ensures |CatalogPage(ps, imagens, pg, f).produtos| <= pg.limite
  {
  }

  /** The number of pages is the least number of `limite`-sized pages that hold all matches. */
  lemma PageCountCovers(ps: seq<Product>, imagens: seq<ProductImage>, pg: Paging, f: Filter)
    requires pg.limite > 0
    ensures var l := CatalogPage(ps, imagens, pg, f);
            (l.totalPaginas - 1) * pg.limite < l.totalProdutos <= l.totalPaginas * pg.limite
  {
  }

  lemma {:induction false} LeftJoinProducts(ps: seq<Product>, imagens: seq<ProductImage>)
    ensures forall row :: row in LeftJoin(ps, imagens) ==> row.produto in ps
  {
    if ps != [] {
      LeftJoinProducts(ps[1..], imagens);
      var j := JoinRows(ps[0], imagens);
      assert forall row :: row in j ==> row.produto == ps[0];
    }
  }

  lemma WindowMembers<T>(rows: seq<T>, limit: int, offset: int)
    ensures forall x :: x in Window(rows, limit, offset) ==> x in rows
  {
    var w := Window(rows, limit, offset);
    var s := Start(|rows|, offset);
    forall x | x in w ensures x in rows {
      var k :| 0 <= k < |w| && w[k] == x;
      assert w[k] == rows[s + k];
    }
  }

  lemma ReverseMembers<T>(s: seq<T>)
    ensures forall x :: x in Reverse(s) ==> x in s
  {
    forall x | x in Reverse(s) ensures x in s {
      var k :| 0 <= k < |s| && Reverse(s)[k] == x;
      assert s[|s| - 1 - k] == x;
    }
  }

  /** Every row returned is a product of the table that the filter accepts. */
  lemma PageRowsMatch(ps: seq<Product>, imagens: seq<ProductImage>, pg: Paging, f: Filter)
    requires pg.limite != 0
    ensures forall row :: row in CatalogPage(ps, imagens, pg, f).produtos ==> row.produto in ps && Matches(f, row.produto)
  {
    var m := Matching(ps, f);
    var newest := Reverse(m);
    LeftJoinProducts(newest, imagens);
    ReverseMembers(m);
    WindowMembers(LeftJoin(newest, imagens), pg.limite, pg.offset);
    forall q | q in m ensures q in ps && Matches(f, q) {
      var k :| 0 <= k < |m| && m[k] == q;
    }
  }

  lemma {:induction false} NoPrimaryImages(imagens: seq<ProductImage>, id: int)
    requires forall k :: 0 <= k < |imagens| && imagens[k].produtoId == id ==> imagens[k].ordem != 0
    ensures PrimaryImages(imagens, id) == []
  {
    if imagens != [] {
      forall k | 0 <= k < |imagens| - 1 && imagens[1..][k].produtoId == id ensures imagens[1..][k].ordem != 0 {
        assert imagens[1..][k] == imagens[k + 1];
      }
      NoPrimaryImages(imagens[1..], id);
    }
  }

  /** With `ordem` unique per product, a product has at most one image with `ordem = 0`. */
  lemma {:induction false} PrimaryImageAtMostOne(imagens: seq<ProductImage>, id: int)
    requires OrdemUnique(imagens)
    ensures |PrimaryImages(imagens, id)| <= 1
  {
    if imagens != [] {
      var rest := imagens[1..];
      assert OrdemUnique(rest) by {
        forall i, j | 0 <= i < j < |rest| && rest[i].produtoId == rest[j].produtoId
          ensures rest[i].ordem != rest[j].ordem {
          assert rest[i] == imagens[i + 1] && rest[j] == imagens[j + 1];
        }
      }
      if imagens[0].produtoId == id && imagens[0].ordem == 0 {
        forall k | 0 <= k < |rest| && rest[k].produtoId == id ensures rest[k].ordem != 0 {
          assert rest[k] == imagens[k + 1];
        }
        NoPrimaryImages(rest, id);
      } else {
        PrimaryImageAtMostOne(rest, id);
      }
    }
  }

  function FirstOf(urls: seq<string>): Option<string>
  {
    if urls == [] then None else Some(urls[0])
  }

  /** One row per product, carrying its primary image when it has one. */
  function WithPrimary(ps: seq<Product>, imagens: seq<ProductImage>): (r: seq<ProductRow>)
    ensures |r| == |ps|
    ensures forall k :: 0 <= k < |ps| ==> r[k].produto == ps[k]
  {
    seq(|ps|, k requires 0 <= k < |ps| => ProductRow(ps[k], FirstOf(PrimaryImages(imagens, ps[k].id))))
  }

  lemma JoinRowsSingle(p: Product, imagens: seq<ProductImage>)
    requires OrdemUnique(imagens)
    ensures JoinRows(p, imagens) == [ProductRow(p, FirstOf(PrimaryImages(imagens, p.id)))]
  {
    PrimaryImageAtMostOne(imagens, p.id);
  }

  lemma WithPrimaryCons(ps: seq<Product>, imagens: seq<ProductImage>)
    requires ps != []
    ensures WithPrimary(ps, imagens) == [ProductRow(ps[0], FirstOf(PrimaryImages(imagens, ps[0].id)))] + WithPrimary(ps[1..], imagens)
  {
    var a, b := WithPrimary(ps, imagens), [ProductRow(ps[0], FirstOf(PrimaryImages(imagens, ps[0].id)))] + WithPrimary(ps[1..], imagens);
    forall k | 0 <= k < |a| ensures a[k] == b[k] {
      if k > 0 { assert ps[1..][k - 1] == ps[k]; }
    }
  }

  /** With unique `ordem`s the LEFT JOIN neither drops nor repeats a product. */
  lemma {:induction false} LeftJoinOneToOne(ps: seq<Product>, imagens: seq<ProductImage>)
    requires OrdemUnique(imagens)
    ensures LeftJoin(ps, imagens) == WithPrimary(ps, imagens)
  {
    if ps != [] {
      JoinRowsSingle(ps[0], imagens);
      LeftJoinOneToOne(ps[1..], imagens);
      WithPrimaryCons(ps, imagens);
    }
  }

  lemma WindowWithPrimary(ps: seq<Product>, imagens: seq<ProductImage>, limit: int, offset: int)
    ensures Window(WithPrimary(ps, imagens), limit, offset) == WithPrimary(Window(ps, limit, offset), imagens)
  {
    var a, b := Window(WithPrimary(ps, imagens), limit, offset), WithPrimary(Window(ps, limit, offset), imagens);
    var i := Start(|ps|, offset);
    forall k | 0 <= k < |a| ensures a[k] == b[k] {
      assert a[k] == WithPrimary(ps, imagens)[i + k];
      assert Window(ps, limit, offset)[k] == ps[i + k];
    }
  }

  /** With unique `ordem`s the page holds one row per product: the window of matching
      products, newest first, that LIMIT and OFFSET select, each with its primary image. */
  lemma PageIsWindow(ps: seq<Product>, imagens: seq<ProductImage>, pg: Paging, f: Filter)
    requires OrdemUnique(imagens) && pg.limite != 0
    ensures CatalogPage(ps, imagens, pg, f).produtos
            == WithPrimary(Window(Reverse(Matching(ps, f)), pg.limite, pg.offset), imagens)
  {
    var newest := Reverse(Matching(ps, f));
    LeftJoinOneToOne(newest, imagens);
    WindowWithPrimary(newest, imagens, pg.limite, pg.offset);
  }

  predicate IdsAscending(ps: seq<Product>)
  {
    forall i, j :: 0 <= i < j < |ps| ==> ps[i].id < ps[j].id
  }

  lemma {:induction false} MatchingAscending(ps: seq<Product>, f: Filter)
    requires IdsAscending(ps)
    ensures IdsAscending(Matching(ps, f))
  {
    if ps != [] {
      var rest := ps[1..];
      assert IdsAscending(rest) by {
        forall i, j | 0 <= i < j < |rest| ensures rest[i].id < rest[j].id {
          assert rest[i] == ps[i + 1] && rest[j] == ps[j + 1];
        }
      }
      MatchingAscending(rest, f);
      var m := Matching(rest, f);
      if Matches(f, ps[0]) {
        forall k | 0 <= k < |m| ensures ps[0].id < m[k].id {
          var j :| 0 <= j < |rest| && rest[j] == m[k];
          assert rest[j] == ps[j + 1];
        }
        ConsAscending(ps[0], m);
      } else {
        assert Matching(ps, f) == m;
      }
    }
  }

  lemma ConsAscending(p: Product, m: seq<Product>)
    requires IdsAscending(m) && forall k :: 0 <= k < |m| ==> p.id < m[k].id
    ensures IdsAscending([p] + m)
  {
    var all := [p] + m;
    forall i, j | 0 <= i < j < |all| ensures all[i].id < all[j].id {
      assert all[j] == m[j - 1];
      if i > 0 { assert all[i] == m[i - 1]; }
    }
  }

  lemma ReverseDescending(ps: seq<Product>)
    requires IdsAscending(ps)
    ensures forall i, j :: 0 <= i < j < |ps| ==> Reverse(ps)[i].id > Reverse(ps)[j].id
  {
  }

  lemma WindowKeepsDescending(rows: seq<ProductRow>, limit: int, offset: int)
    requires forall i, j :: 0 <= i < j < |rows| ==> rows[i].produto.id > rows[j].produto.id
    ensures var w := Window(rows, limit, offset);
            forall i, j :: 0 <= i < j < |w| ==> w[i].produto.id > w[j].produto.id
  {
    var w := Window(rows, limit, offset);
    var s := Start(|rows|, offset);
    forall i, j | 0 <= i < j < |w| ensures w[i].produto.id > w[j].produto.id {
      assert w[i] == rows[s + i] && w[j] == rows[s + j];
    }
  }

  /** Newest first: with `AUTOINCREMENT` keys (ids increasing in table order) the ids on
      a page strictly decrease. */
  lemma PageNewestFirst(ps: seq<Product>, imagens: seq<ProductImage>, pg: Paging, f: Filter, next: int)
    requires KeysBelow(ProductIds(ps), next) && OrdemUnique(imagens) && pg.limite != 0
    ensures var rows := CatalogPage(ps, imagens, pg, f).produtos;
            forall i, j :: 0 <= i < j < |rows| ==> rows[i].produto.id > rows[j].produto.id
  {
    assert IdsAscending(ps) by {
      forall i, j | 0 <= i < j < |ps| ensures ps[i].id < ps[j].id {
        assert ProductIds(ps)[i] < ProductIds(ps)[j];
      }
    }
    MatchingAscending(ps, f);
    var newest := Reverse(Matching(ps, f));
    ReverseDescending(Matching(ps, f));
    LeftJoinOneToOne(newest, imagens);
    WindowKeepsDescending(WithPrimary(newest, imagens), pg.limite, pg.offset);
  }

  lemma MulMonotone(a: int, b: int, c: int)
    requires a <= b && c > 0
    ensures a * c <= b * c
  {
  }

  /** With `offset = (pagina - 1) * limite`, the offset falls inside the matches exactly
      on pages 1 to `ceil(total / limite)`. */
  lemma OffsetInsideIff(total: nat, pagina: int, limite: int)
    requires limite > 0 && pagina >= 1
    ensures (pagina - 1) * limite < total <==> pagina <= JsNumber.CeilDiv(total, limite)
  {
    var t := JsNumber.CeilDiv(total, limite);
    if pagina <= t {
      MulMonotone(pagina - 1, t - 1, limite);
    } else {
      MulMonotone(t, pagina - 1, limite);
    }
  }

  /** A positive limit and a non-negative offset give a non-empty window iff the offset is
      inside the rows. */
  lemma WindowNonEmptyIff<T>(rows: seq<T>, limit: int, offset: int)
    requires limit > 0 && offset >= 0
    ensures |Window(rows, limit, offset)| > 0 <==> offset < |rows|
  {
  }

  /** The page arithmetic: the offset of page `pagina` is not negative, and it lies inside
      `total` rows exactly on pages 1 to `ceil(total / limite)`. */
  lemma PageOffsetArith(total: nat, pagina: int, limite: int, offset: int)
    requires limite > 0 && pagina >= 1 && offset == (pagina - 1) * limite
    ensures offset >= 0
    ensures offset < total <==> pagina <= JsNumber.CeilDiv(total, limite)
  {
    MulMonotone(0, pagina - 1, limite);
    OffsetInsideIff(total, pagina, limite);
  }

  /** Pages 1 to `totalPaginas` have rows and every later page is empty. */
  lemma PageNonEmptyIff(ps: seq<Product>, imagens: seq<ProductImage>, pg: Paging, f: Filter)
    requires OrdemUnique(imagens) && pg.limite > 0 && pg.pagina >= 1
    requires pg.offset == (pg.pagina - 1) * pg.limite
    ensures var l := CatalogPage(ps, imagens, pg, f);
            |l.produtos| > 0 <==> pg.pagina <= l.totalPaginas
  {
    var m := Matching(ps, f);
    var w := LeftJoin(Reverse(m), imagens);
    LeftJoinOneToOne(Reverse(m), imagens);
    assert |w| == |m|;
    PageOffsetArith(|m|, pg.pagina, pg.limite, pg.offset);
    WindowNonEmptyIff(w, pg.limite, pg.offset);
  }
}

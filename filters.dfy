/** `GET /api/filtros`: the options the catalog page offers for filtering. Categories come
    from a `SELECT DISTINCT ... ORDER BY` query; tags are gathered from every product's
    comma-separated tag string into a set, which is then sorted. */
module FilterOptions {
  import opened Wrappers
  import opened Schema
  import opened Text

  // ---------------------------------------------------------------------------
  // Categories

  /** `categoria IS NOT NULL AND categoria != ''`. */
  predicate HasCategory(p: Product)
  {
    p.categoria.Some? && p.categoria.value != ""
  }

  /** The non-empty categories of the table, in table order, repeats included. */
  function CategoryColumn(ps: seq<Product>): (r: seq<string>)
    ensures forall c :: c in r ==> c != ""
  {
    if ps == [] then []
    else (if HasCategory(ps[0]) then [ps[0].categoria.value] else []) + CategoryColumn(ps[1..])
  }

  lemma {:induction false} CategoryColumnMembers(ps: seq<Product>, c: string)
    ensures c in CategoryColumn(ps) <==> exists k :: 0 <= k < |ps| && ps[k].categoria == Some(c) && c != ""
  {
    if ps != [] {
      CategoryColumnMembers(ps[1..], c);
      if exists k :: 0 <= k < |ps| && ps[k].categoria == Some(c) && c != "" {
        var k :| 0 <= k < |ps| && ps[k].categoria == Some(c) && c != "";
        if k > 0 { assert ps[1..][k - 1] == ps[k]; }
      }
      if exists k :: 0 <= k < |ps[1..]| && ps[1..][k].categoria == Some(c) && c != "" {
        var k :| 0 <= k < |ps[1..]| && ps[1..][k].categoria == Some(c) && c != "";
        assert ps[k + 1] == ps[1..][k];
      }
    }
  }

  /** The category list: every non-empty category used by some product, once, in ascending order. */
  function CategoryOptions(ps: seq<Product>): (r: seq<string>)
    ensures StrictlySorted(r)
    ensures forall c :: c in r <==> c in CategoryColumn(ps)
  {
    var d := Distinct(CategoryColumn(ps));
    SortKeepsDistinct(d);
    var r := Sort(d);
    assert forall c :: c in r <==> c in d by {
      forall c ensures c in r <==> c in d {
        assert c in r <==> c in multiset(r);
        assert c in d <==> c in multiset(d);
      }
    }
    r
  }

  /** A category is offered exactly when some product has it and it is not empty. */
  lemma CategoryOptionsExact(ps: seq<Product>, c: string)
    ensures c in CategoryOptions(ps) <==> exists k :: 0 <= k < |ps| && ps[k].categoria == Some(c) && c != ""
  {
    CategoryColumnMembers(ps, c);
  }

  // ---------------------------------------------------------------------------
  // Tags

  /** `SELECT tags FROM produtos WHERE tags IS NOT NULL AND tags != ''`, in table order. */
  function TagColumn(ps: seq<Product>): (r: seq<string>)
    ensures forall k :: 0 <= k < |r| ==> r[k] != ""
  {
    if ps == [] then []
    else (if ps[0].tags.Some? && ps[0].tags.value != "" then [ps[0].tags.value] else []) + TagColumn(ps[1..])
  }

  /** The trimmed, non-empty pieces of a list of comma pieces, in order. */
  function Cleaned(pieces: seq<string>): (r: seq<string>)
    ensures forall k :: 0 <= k < |r| ==> r[k] != "" && IsTrimmed(r[k])
  {
    if pieces == [] then []
    else
      var t := Trim(pieces[|pieces| - 1]);
      TrimIsTrimmed(pieces[|pieces| - 1]);
      Cleaned(pieces[..|pieces| - 1]) + (if t != "" then [t] else [])
  }

  /** Every tag the rows mention: the cleaned comma pieces of each row, row after row. */
  function AllTags(rows: seq<string>): (r: seq<string>)
    ensures forall k :: 0 <= k < |r| ==> r[k] != "" && IsTrimmed(r[k])
  {
    if rows == [] then []
    else AllTags(rows[..|rows| - 1]) + Cleaned(Split(rows[|rows| - 1], ','))
  }

  /** `t` is one of the comma pieces of `row`, trimmed. */
  ghost predicate TrimmedPieceOf(row: string, t: string)
  {
    exists l :: 0 <= l < |Split(row, ',')| && Trim(Split(row, ',')[l]) == t
  }

  /** A string is among `Cleaned(pieces)` exactly when it is a non-empty trimmed piece. */
  lemma {:induction false} CleanedMembers(pieces: seq<string>, t: string)
    ensures t in Cleaned(pieces) <==> t != "" && exists l :: 0 <= l < |pieces| && Trim(pieces[l]) == t
  {
    if pieces != [] {
      var n := |pieces| - 1;
      CleanedMembers(pieces[..n], t);
      PiecesSnoc(pieces, t);
    }
  }

  lemma PiecesSnoc(pieces: seq<string>, t: string)
    requires pieces != []
    ensures var n := |pieces| - 1;
            (exists l :: 0 <= l < |pieces| && Trim(pieces[l]) == t)
            <==> (exists l :: 0 <= l < n && Trim(pieces[..n][l]) == t) || Trim(pieces[n]) == t
  {
    var n := |pieces| - 1;
    if exists l :: 0 <= l < |pieces| && Trim(pieces[l]) == t {
      var l :| 0 <= l < |pieces| && Trim(pieces[l]) == t;
      if l < n { assert pieces[..n][l] == pieces[l]; }
    }
    if exists l :: 0 <= l < n && Trim(pieces[..n][l]) == t {
      var l :| 0 <= l < n && Trim(pieces[..n][l]) == t;
      assert pieces[l] == pieces[..n][l];
    }
  }

  /** A string is among `AllTags(rows)` exactly when it is a cleaned piece of one of the rows. */
  lemma {:induction false} AllTagsMembers(rows: seq<string>, t: string)
    ensures t in AllTags(rows) <==> exists k :: 0 <= k < |rows| && t in Cleaned(Split(rows[k], ','))
  {
    if rows != [] {
      var n := |rows| - 1;
      AllTagsMembers(rows[..n], t);
      if exists k :: 0 <= k < |rows| && t in Cleaned(Split(rows[k], ',')) {
        var k :| 0 <= k < |rows| && t in Cleaned(Split(rows[k], ','));
        if k < n { assert rows[..n][k] == rows[k]; }
      }
      if exists k :: 0 <= k < n && t in Cleaned(Split(rows[..n][k], ',')) {
        var k :| 0 <= k < n && t in Cleaned(Split(rows[..n][k], ','));
        assert rows[..n][k] == rows[k];
      }
    }
  }

  /** The tag list: the set of all cleaned pieces, sorted. */
  function TagOptions(ps: seq<Product>): seq<string>
  {
    Sort(Distinct(AllTags(TagColumn(ps))))
  }

  /** A duplicate-free list holding exactly the tags of `rows` sorts to `TagOptions`. */
  lemma SortOfCollected(tagSet: seq<string>, rows: seq<string>)
    requires NoDuplicates(tagSet)
    requires SameMembers(tagSet, AllTags(rows))
    ensures Sort(tagSet) == Sort(Distinct(AllTags(rows)))
    ensures StrictlySorted(Sort(tagSet))
    ensures forall t :: t in Sort(tagSet) <==> t in tagSet
  {
    var all := AllTags(rows);
    assert forall t :: t in Distinct(all) <==> t in tagSet;
    SameElementsSameMultiset(tagSet, Distinct(all));
    SortKeepsDistinct(tagSet);
    SortedUnique(Sort(tagSet), Sort(Distinct(all)));
    assert forall t :: t in Sort(tagSet) <==> t in multiset(Sort(tagSet));
    assert forall t :: t in tagSet <==> t in multiset(tagSet);
  }

  /** `a` and `b` hold the same strings. */
  ghost predicate SameMembers(a: seq<string>, b: seq<string>)
  {
    forall t :: t in a <==> t in b
  }

  /** One step of the inner loop: the set grows by the cleaned piece, if new and non-empty. */
  lemma AddPieceStep(tagSet: seq<string>, before: seq<string>, pieces: seq<string>, j: int, added: seq<string>)
    requires 0 <= j < |pieces|
    requires SameMembers(tagSet, before + Cleaned(pieces[..j]))
    requires NoDuplicates(tagSet)
    requires var u := Trim(pieces[j]);
             added == if u != "" && u !in tagSet then tagSet + [u] else tagSet
    ensures NoDuplicates(added)
    ensures SameMembers(added, before + Cleaned(pieces[..j + 1]))
  {
    assert pieces[..j + 1][..j] == pieces[..j];
  }

  lemma AllTagsStep(rows: seq<string>, i: int)
    requires 0 <= i < |rows|
    ensures AllTags(rows[..i + 1]) == AllTags(rows[..i]) + Cleaned(Split(rows[i], ','))
  {
    assert rows[..i + 1][..i] == rows[..i];
  }

  /** The inner `forEach` over the comma pieces of one row: each trimmed, non-empty piece
      not yet in the set is pushed onto it. */
  method AddPieces(tagSet: seq<string>, ghost before: seq<string>, pieces: seq<string>) returns (added: seq<string>)
    requires NoDuplicates(tagSet)
    requires SameMembers(tagSet, before)
    ensures NoDuplicates(added)
    ensures SameMembers(added, before + Cleaned(pieces))
  {
    added := tagSet;
    var j := 0;
    assert pieces[..0] == [];
    assert before + [] == before;
    while j < |pieces|
      invariant 0 <= j <= |pieces|
      invariant NoDuplicates(added)
      invariant SameMembers(added, before + Cleaned(pieces[..j]))
    {
      var tagLimpa := Trim(pieces[j]);
      ghost var previous := added;
      if tagLimpa != "" && tagLimpa !in added {
        added := added + [tagLimpa];
      }
      AddPieceStep(previous, before, pieces, j, added);
      j := j + 1;
    }
    assert pieces[..j] == pieces;
  }

  /** Fills `tagSet` row by row and piece by piece, as the nested `forEach` loops do,
      then sorts it. The result is `TagOptions`: strictly ascending, each entry a
      non-empty trimmed string, and exactly the pieces found in the rows. */
  method CollectTags(ps: seq<Product>) returns (tags: seq<string>)
    ensures tags == TagOptions(ps)
    ensures StrictlySorted(tags)
    ensures forall t :: t in tags ==> t != "" && IsTrimmed(t)
    ensures forall t :: t in tags <==> t in AllTags(TagColumn(ps))
  {
    var rows := TagColumn(ps);
    var tagSet: seq<string> := [];
    var i := 0;
    while i < |rows|
      invariant 0 <= i <= |rows|
      invariant NoDuplicates(tagSet)
      invariant SameMembers(tagSet, AllTags(rows[..i]))
    {
      tagSet := AddPieces(tagSet, AllTags(rows[..i]), Split(rows[i], ','));
      AllTagsStep(rows, i);
      i := i + 1;
    }
    assert rows[..i] == rows;
    SortOfCollected(tagSet, rows);
    tags := Sort(tagSet);
  }

  /** The JSON `/api/filtros` returns. */
  datatype Options = Options(categorias: seq<string>, tags: seq<string>)

  /** The `/api/filtros` handler. */
  method ListarFiltros(ps: seq<Product>) returns (r: Options)
    ensures r == Options(CategoryOptions(ps), TagOptions(ps))
  {
    var categorias := CategoryOptions(ps);
    var tags := CollectTags(ps);
    r := Options(categorias, tags);
  }

  /** Every offered tag is a non-empty trimmed comma piece of some product's tag string,
      and every such piece is offered. */
  lemma TagOptionsExact(ps: seq<Product>, t: string)
    ensures var rows := TagColumn(ps);
            t in TagOptions(ps) <==>
              t != "" && exists k :: 0 <= k < |rows| && TrimmedPieceOf(rows[k], t)
  {
    var rows := TagColumn(ps);
    var d := Distinct(AllTags(rows));
    assert t in Sort(d) <==> t in multiset(Sort(d));
    assert t in d <==> t in multiset(d);
    AllTagsMembers(rows, t);
    forall k | 0 <= k < |rows| ensures t in Cleaned(Split(rows[k], ',')) <==> t != "" && TrimmedPieceOf(rows[k], t) {
      CleanedMembers(Split(rows[k], ','), t);
    }
  }

  /** The tag list is strictly ascending and holds only non-empty trimmed tags. */
  lemma TagOptionsShape(ps: seq<Product>)
    ensures StrictlySorted(TagOptions(ps))
    ensures forall t :: t in TagOptions(ps) ==> t != "" && IsTrimmed(t)
  {
    var d := Distinct(AllTags(TagColumn(ps)));
    SortKeepsDistinct(d);
    forall t | t in TagOptions(ps) ensures t != "" && IsTrimmed(t) {
      assert t in multiset(Sort(d));
      assert t in d;
    }
  }
}

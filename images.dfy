/** The image rows the admin product routes write: one row per non-empty URL, numbered by
    an `ordem` counter that advances only when a row is written. */
module ProductImages {
  import opened Wrappers
  import opened Schema
  import Text

  /** The URLs the loop writes: the truthy entries of the `imagens` array, in order
      (a missing array writes none). */
  function Kept(urls: seq<Option<string>>): (r: seq<string>)
    ensures |r| <= |urls|
    ensures forall k :: 0 <= k < |r| ==> r[k] != ""
  {
    if urls == [] then []
    else
      var last := urls[|urls| - 1];
      Kept(urls[..|urls| - 1]) + (if Text.Truthy(last) then [last.value] else [])
  }

  function UrlsOf(imagens: Option<seq<Option<string>>>): seq<Option<string>>
  {
    if imagens.Some? then imagens.value else []
  }

  /** The rows written for product `pid` when the next free image id is `firstId`. */
  function ImageRows(pid: int, urls: seq<Option<string>>, firstId: int): (r: seq<ProductImage>)
    ensures |r| == |Kept(urls)|
    ensures forall k :: 0 <= k < |r| ==> r[k] == ProductImage(firstId + k, pid, Kept(urls)[k], k)
  {
    var kept := Kept(urls);
    seq(|kept|, k requires 0 <= k < |kept| => ProductImage(firstId + k, pid, kept[k], k))
  }

  /** The loop of the create and update routes: `for (const url of imagens) if (url) { insert
      (pid, url, ordem); ordem++ }`. It writes exactly `ImageRows` and uses that many ids. */
  method WriteImages(pid: int, imagens: Option<seq<Option<string>>>, firstId: int)
    returns (rows: seq<ProductImage>, nextId: int)
    ensures rows == ImageRows(pid, UrlsOf(imagens), firstId)
    ensures nextId == firstId + |rows|
  {
    rows := [];
    nextId := firstId;
    if imagens.Some? && |imagens.value| > 0 {
      var urls := imagens.value;
      var ordem := 0;
      var i := 0;
      while i < |urls|
        invariant 0 <= i <= |urls|
        invariant rows == ImageRows(pid, urls[..i], firstId)
        invariant ordem == |rows| && nextId == firstId + ordem
      {
        assert urls[..i + 1][..i] == urls[..i];
        var url := urls[i];
        if Text.Truthy(url) {
          rows := rows + [ProductImage(nextId, pid, url.value, ordem)];
          nextId := nextId + 1;
          ordem := ordem + 1;
        }
        i := i + 1;
      }
      assert urls[..i] == urls;
    }
  }

  /** `Kept` drops exactly the falsy entries: its elements are the truthy URLs, in order. */
  lemma {:induction false} KeptIsTruthyEntries(urls: seq<Option<string>>, u: string)
    ensures u in Kept(urls) <==> u != "" && Some(u) in urls
  {
    if urls != [] {
      var n := |urls| - 1;
      KeptIsTruthyEntries(urls[..n], u);
      assert urls == urls[..n] + [urls[n]];
    }
  }

  /** The written rows carry the product id, the URLs in submitted order, `ordem` 0, 1, 2, ...
      without gaps, and consecutive fresh ids. */
  lemma ImageRowsShape(pid: int, urls: seq<Option<string>>, firstId: int)
    ensures var r := ImageRows(pid, urls, firstId);
            && (forall k :: 0 <= k < |r| ==> r[k].produtoId == pid && r[k].ordem == k)
            && (forall k :: 0 <= k < |r| ==> r[k].imagemUrl == Kept(urls)[k])
            && (firstId >= 1 ==> KeysBelow(ImageIds(r), firstId + |r|))
            && OrdemUnique(r)
  {
  }

  // ---------------------------------------------------------------------------
  // The image table

  /** The images of product `pid`, in table order. */
  function ImagesOf(rows: seq<ProductImage>, pid: int): (r: seq<ProductImage>)
    ensures forall k :: 0 <= k < |r| ==> r[k].produtoId == pid && r[k] in rows
  {
    if rows == [] then []
    else (if rows[0].produtoId == pid then [rows[0]] else []) + ImagesOf(rows[1..], pid)
  }

  /** Going from table `before` to table `after`, product `pid`'s images became exactly
      `rows` and every other product kept its images, in order. */
  ghost predicate ImagesReplaced(after: seq<ProductImage>, before: seq<ProductImage>, pid: int, rows: seq<ProductImage>)
  {
    forall q :: ImagesOf(after, q) == if q == pid then rows else ImagesOf(before, q)
  }

  /** `DELETE FROM produto_imagens WHERE produto_id = ?`. */
  function DeleteImagesOf(rows: seq<ProductImage>, pid: int): (r: seq<ProductImage>)
    ensures forall k :: 0 <= k < |r| ==> r[k].produtoId != pid && r[k] in rows
  {
    if rows == [] then []
    else (if rows[0].produtoId != pid then [rows[0]] else []) + DeleteImagesOf(rows[1..], pid)
  }

  lemma {:induction false} ImagesOfConcat(a: seq<ProductImage>, b: seq<ProductImage>, pid: int)
    ensures ImagesOf(a + b, pid) == ImagesOf(a, pid) + ImagesOf(b, pid)
  {
    if a == [] {
      assert a + b == b;
    } else {
      var head := if a[0].produtoId == pid then [a[0]] else [];
      assert ImagesOf(a + b, pid) == head + ImagesOf(a[1..] + b, pid) by {
        assert (a + b)[0] == a[0] && (a + b)[1..] == a[1..] + b;
      }
      ImagesOfConcat(a[1..], b, pid);
      assert head + (ImagesOf(a[1..], pid) + ImagesOf(b, pid)) == (head + ImagesOf(a[1..], pid)) + ImagesOf(b, pid);
    }
  }

  lemma {:induction false} ImagesOfRows(pid: int, urls: seq<Option<string>>, firstId: int, q: int)
    ensures ImagesOf(ImageRows(pid, urls, firstId), q) == if q == pid then ImageRows(pid, urls, firstId) else []
  {
    var r := ImageRows(pid, urls, firstId);
    ImagesOfAll(r, q);
  }

  lemma {:induction false} ImagesOfAll(r: seq<ProductImage>, q: int)
    ensures (forall k :: 0 <= k < |r| ==> r[k].produtoId == q) ==> ImagesOf(r, q) == r
    ensures (forall k :: 0 <= k < |r| ==> r[k].produtoId != q) ==> ImagesOf(r, q) == []
  {
    if r != [] {
      ImagesOfAll(r[1..], q);
      assert forall k :: 0 <= k < |r[1..]| ==> r[1..][k] == r[k + 1];
    }
  }

  lemma {:induction false} ImagesOfDeleted(rows: seq<ProductImage>, pid: int, q: int)
    ensures ImagesOf(DeleteImagesOf(rows, pid), q) == if q == pid then [] else ImagesOf(rows, q)
  {
    if rows != [] {
      ImagesOfDeleted(rows[1..], pid, q);
      var head := if rows[0].produtoId != pid then [rows[0]] else [];
      ImagesOfConcat(head, DeleteImagesOf(rows[1..], pid), q);
    }
  }

  /** What a committed update does to the image table: remove every image of `pid`, then
      append the new rows. */
  function ReplaceImages(rows: seq<ProductImage>, pid: int, urls: seq<Option<string>>, firstId: int): seq<ProductImage>
  {
    DeleteImagesOf(rows, pid) + ImageRows(pid, urls, firstId)
  }

  /** After a create or an update, the product's images are exactly the new rows and every
      other product keeps its images, in order. */
  lemma ReplaceImagesFrame(rows: seq<ProductImage>, pid: int, urls: seq<Option<string>>, firstId: int, q: int)
    ensures ImagesOf(ReplaceImages(rows, pid, urls, firstId), q)
            == if q == pid then ImageRows(pid, urls, firstId) else ImagesOf(rows, q)
  {
    ImagesOfConcat(DeleteImagesOf(rows, pid), ImageRows(pid, urls, firstId), q);
    ImagesOfDeleted(rows, pid, q);
    ImagesOfRows(pid, urls, firstId, q);
  }

  /** A create appends rows for a product that has none yet. */
  lemma AppendImagesFrame(rows: seq<ProductImage>, pid: int, urls: seq<Option<string>>, firstId: int, q: int)
    requires ImagesOf(rows, pid) == []
    ensures ImagesOf(rows + ImageRows(pid, urls, firstId), q)
            == if q == pid then ImageRows(pid, urls, firstId) else ImagesOf(rows, q)
  {
    ImagesOfConcat(rows, ImageRows(pid, urls, firstId), q);
    ImagesOfRows(pid, urls, firstId, q);
  }

  lemma {:induction false} NoImagesOf(rows: seq<ProductImage>, pid: int)
    requires forall k :: 0 <= k < |rows| ==> rows[k].produtoId != pid
    ensures ImagesOf(rows, pid) == []
  {
    ImagesOfAll(rows, pid);
  }

  /** Appending the rows of one product whose images were all removed keeps `ordem`
      unique per product. */
  lemma AppendKeepsOrdemUnique(rows: seq<ProductImage>, pid: int, urls: seq<Option<string>>, firstId: int)
    requires OrdemUnique(rows)
    requires forall k :: 0 <= k < |rows| ==> rows[k].produtoId != pid
    ensures OrdemUnique(rows + ImageRows(pid, urls, firstId))
  {
    var n := ImageRows(pid, urls, firstId);
    var all := rows + n;
    forall i, j | 0 <= i < j < |all| && all[i].produtoId == all[j].produtoId
      ensures all[i].ordem != all[j].ordem {
      if j >= |rows| {
        assert all[j] == n[j - |rows|];
        if i >= |rows| { assert all[i] == n[i - |rows|]; }
      }
    }
  }

  lemma {:induction false} DeleteKeepsOrdemUnique(rows: seq<ProductImage>, pid: int)
    requires OrdemUnique(rows)
    ensures OrdemUnique(DeleteImagesOf(rows, pid))
  {
    if rows != [] {
      var rest := rows[1..];
      assert OrdemUnique(rest) by {
        forall i, j | 0 <= i < j < |rest| && rest[i].produtoId == rest[j].produtoId
          ensures rest[i].ordem != rest[j].ordem {
          assert rest[i] == rows[i + 1] && rest[j] == rows[j + 1];
        }
      }
      DeleteKeepsOrdemUnique(rest, pid);
      var d := DeleteImagesOf(rest, pid);
      if rows[0].produtoId != pid {
        forall k | 0 <= k < |d| && d[k].produtoId == rows[0].produtoId ensures d[k].ordem != rows[0].ordem {
          var m :| 0 <= m < |rest| && rest[m] == d[k];
          assert rest[m] == rows[m + 1];
        }
        ConsOrdemUnique(rows[0], d);
      } else {
        assert DeleteImagesOf(rows, pid) == d;
      }
    }
  }

  lemma ConsOrdemUnique(x: ProductImage, d: seq<ProductImage>)
    requires OrdemUnique(d)
    requires forall k :: 0 <= k < |d| && d[k].produtoId == x.produtoId ==> d[k].ordem != x.ordem
    ensures OrdemUnique([x] + d)
  {
    var all := [x] + d;
    forall i, j | 0 <= i < j < |all| && all[i].produtoId == all[j].produtoId ensures all[i].ordem != all[j].ordem {
      assert all[j] == d[j - 1];
      if i > 0 { assert all[i] == d[i - 1]; }
    }
  }

  lemma TailKeys(rows: seq<ProductImage>, next: int)
    requires rows != [] && KeysBelow(ImageIds(rows), next)
    ensures KeysBelow(ImageIds(rows[1..]), next)
    ensures forall x :: x in rows[1..] ==> rows[0].id < x.id
  {
    var rest := rows[1..];
    forall i, j | 0 <= i < j < |rest| ensures rest[i].id < rest[j].id {
      assert rest[i] == rows[i + 1] && rest[j] == rows[j + 1];
    }
    forall k | 0 <= k < |rest| ensures 1 <= rest[k].id < next {
      assert rest[k] == rows[k + 1];
    }
    forall x | x in rest ensures rows[0].id < x.id {
      var k :| 0 <= k < |rest| && rest[k] == x;
      assert ImageIds(rows)[0] < ImageIds(rows)[k + 1];
    }
  }

  lemma ConsKeys(h: ProductImage, d: seq<ProductImage>, next: int)
    requires KeysBelow(ImageIds(d), next) && 1 <= h.id < next
    requires forall x :: x in d ==> h.id < x.id
    ensures KeysBelow(ImageIds([h] + d), next)
  {
    var all := [h] + d;
    forall i, j | 0 <= i < j < |all| ensures all[i].id < all[j].id {
      assert all[j] == d[j - 1];
      if i > 0 { assert all[i] == d[i - 1]; }
    }
    forall k | 0 <= k < |all| ensures 1 <= all[k].id < next {
      if k > 0 { assert all[k] == d[k - 1]; }
    }
  }

  /** Deleting rows keeps the remaining ids increasing and below the next id. */
  lemma {:induction false} DeleteKeepsKeys(rows: seq<ProductImage>, pid: int, next: int)
    requires KeysBelow(ImageIds(rows), next)
    ensures KeysBelow(ImageIds(DeleteImagesOf(rows, pid)), next)
  {
    if rows != [] {
      TailKeys(rows, next);
      DeleteKeepsKeys(rows[1..], pid, next);
      var d := DeleteImagesOf(rows[1..], pid);
      if rows[0].produtoId != pid {
        assert ImageIds(rows)[0] == rows[0].id;
        ConsKeys(rows[0], d, next);
      }
    }
  }

  /** Appending rows numbered from the next id keeps the ids increasing and advances the next id. */
  lemma AppendKeepsKeys(rows: seq<ProductImage>, pid: int, urls: seq<Option<string>>, next: int)
    requires KeysBelow(ImageIds(rows), next) && next >= 1
    ensures var n := ImageRows(pid, urls, next);
            KeysBelow(ImageIds(rows + n), next + |n|)
  {
    var n := ImageRows(pid, urls, next);
    var all := rows + n;
    forall i, j | 0 <= i < j < |all| ensures all[i].id < all[j].id {
      if j >= |rows| {
        assert all[j] == n[j - |rows|];
        if i >= |rows| { assert all[i] == n[i - |rows|]; }
      }
    }
    forall k | 0 <= k < |all| ensures 1 <= all[k].id < next + |n| {
      if k >= |rows| { assert all[k] == n[k - |rows|]; }
    }
  }

  /** Deleting some rows keeps every remaining image pointing at a product. */
  lemma DeleteKeepsReferences(ps: seq<Product>, rows: seq<ProductImage>, pid: int)
    requires ImagesReferenceProducts(ps, rows)
    ensures ImagesReferenceProducts(ps, DeleteImagesOf(rows, pid))
  {
    var d := DeleteImagesOf(rows, pid);
    forall k | 0 <= k < |d| ensures HasProduct(ps, d[k].produtoId) {
      var m :| 0 <= m < |rows| && rows[m] == d[k];
    }
  }

  /** Rows written for an existing product point at it. */
  lemma AppendKeepsReferences(ps: seq<Product>, rows: seq<ProductImage>, pid: int, urls: seq<Option<string>>, next: int)
    requires ImagesReferenceProducts(ps, rows) && HasProduct(ps, pid)
    ensures ImagesReferenceProducts(ps, rows + ImageRows(pid, urls, next))
  {
    var n := ImageRows(pid, urls, next);
    var all := rows + n;
    forall k | 0 <= k < |all| ensures HasProduct(ps, all[k].produtoId) {
      if k >= |rows| { assert all[k] == n[k - |rows|]; }
    }
  }

  // ---------------------------------------------------------------------------
  // The update route as written

  /** The image table after `PUT /api/admin/produtos/:id` as written: nothing checks that
      product `id` exists, and foreign keys are not enforced (no `PRAGMA foreign_keys`), so
      the old images of `id` are deleted and the new rows written for `id` whether or not
      there is such a product. */
  function UpdateImagesAsWritten(rows: seq<ProductImage>, id: int, urls: seq<Option<string>>, firstId: int): seq<ProductImage>
  {
    ReplaceImages(rows, id, urls, firstId)
  }

  /** The create route's image table: the new rows appended for the new product's id. */
  function CreateImages(rows: seq<ProductImage>, pid: int, urls: seq<Option<string>>, firstId: int): seq<ProductImage>
  {
    rows + ImageRows(pid, urls, firstId)
  }

  /** On an empty catalog, updating the unknown product 1 with image `u` and then creating a
      product with image `v` leaves the new product (id 1, the first `AUTOINCREMENT` key) with
      two images, both at `ordem` 0: the update left an orphan row that the new product inherits. */
  lemma OrphanImagesCounterexample()
    ensures var afterUpdate := UpdateImagesAsWritten([], 1, [Some("u")], 1);
            var afterCreate := CreateImages(afterUpdate, 1, [Some("v")], 2);
            && !HasProduct([], 1) && !ImagesReferenceProducts([], afterUpdate)
            && afterCreate == [ProductImage(1, 1, "u", 0), ProductImage(2, 1, "v", 0)]
            && !OrdemUnique(afterCreate)
            && ImagesOf(afterCreate, 1) != ImageRows(1, [Some("v")], 2)
  {
    var afterUpdate := UpdateImagesAsWritten([], 1, [Some("u")], 1);
    assert Kept([Some("u")]) == ["u"] by { assert [Some("u")][..0] == []; }
    assert Kept([Some("v")]) == ["v"] by { assert [Some("v")][..0] == []; }
    assert DeleteImagesOf([], 1) == [];
    assert afterUpdate == [ProductImage(1, 1, "u", 0)];
    assert afterUpdate[0].produtoId == 1 && !HasProduct([], 1);
    var afterCreate := CreateImages(afterUpdate, 1, [Some("v")], 2);
    assert afterCreate == [ProductImage(1, 1, "u", 0), ProductImage(2, 1, "v", 0)];
    ImagesOfAll(afterCreate, 1);
    assert |ImageRows(1, [Some("v")], 2)| == 1;
  }
}

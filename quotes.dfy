/** The item rows `POST /api/orcamentos` writes for a cart: one `INSERT` per cart entry, in
    cart order, each row pointing at the new quote. */
module Quotes {
  import opened Schema

  /** One entry of the cart array: `{ id, quantity }`. */
  datatype CartItem = CartItem(id: int, quantity: int)

  /** The rows written for quote `qid` when the next free item id is `firstId`. */
  function ItemRows(qid: int, cart: seq<CartItem>, firstId: int): (r: seq<QuoteItem>)
    ensures |r| == |cart|
    ensures forall k :: 0 <= k < |r| ==> r[k] == QuoteItem(firstId + k, qid, cart[k].id, cart[k].quantity)
  {
    seq(|cart|, k requires 0 <= k < |cart| => QuoteItem(firstId + k, qid, cart[k].id, cart[k].quantity))
  }

  /** The `for (const item of itensDoCarrinho) stmt.run(orcamentoId, item.id, item.quantity)`
      loop: it writes exactly `ItemRows` and uses one id per entry. */
  method WriteItems(qid: int, cart: seq<CartItem>, firstId: int) returns (rows: seq<QuoteItem>, nextId: int)
    ensures rows == ItemRows(qid, cart, firstId)
    ensures nextId == firstId + |cart|
  {
    rows := [];
    nextId := firstId;
    var i := 0;
    while i < |cart|
      invariant 0 <= i <= |cart|
      invariant rows == ItemRows(qid, cart[..i], firstId)
      invariant nextId == firstId + i
    {
      var item := cart[i];
      rows := rows + [QuoteItem(nextId, qid, item.id, item.quantity)];
      nextId := nextId + 1;
      i := i + 1;
    }
    assert cart[..i] == cart;
  }

  /** The cart read back from the written rows: the product and quantity of each row, in order. */
  function CartOf(rows: seq<QuoteItem>): (r: seq<CartItem>)
    ensures |r| == |rows|
  {
    seq(|rows|, k requires 0 <= k < |rows| => CartItem(rows[k].produtoId, rows[k].quantidade))
  }

  /** The rows hold the whole cart: reading products and quantities back gives the cart itself. */
  lemma ItemRowsHoldCart(qid: int, cart: seq<CartItem>, firstId: int)
    ensures CartOf(ItemRows(qid, cart, firstId)) == cart
  {
    var r := CartOf(ItemRows(qid, cart, firstId));
    assert forall k :: 0 <= k < |cart| ==> r[k] == cart[k];
  }

  /** Appending a quote's rows numbered from the next id keeps the item ids increasing and
      every item pointing at an existing quote; each new row belongs to the quote. */
  lemma ItemRowsShape(qid: int, cart: seq<CartItem>, qs: seq<Quote>, rows: seq<QuoteItem>, next: int)
    requires KeysBelow(ItemIds(rows), next) && next >= 1
    requires ItemsReferenceQuotes(qs, rows) && HasQuote(qs, qid)
    ensures var n := ItemRows(qid, cart, next);
            && KeysBelow(ItemIds(rows + n), next + |n|)
            && ItemsReferenceQuotes(qs, rows + n)
            && forall k :: 0 <= k < |n| ==> n[k].orcamentoId == qid
  {
    var n := ItemRows(qid, cart, next);
    var all := rows + n;
    forall i, j | 0 <= i < j < |all| ensures all[i].id < all[j].id {
      if j >= |rows| {
        assert all[j] == n[j - |rows|];
        if i >= |rows| { assert all[i] == n[i - |rows|]; }
        else { assert ItemIds(rows)[i] < next; }
      } else {
        assert ItemIds(rows)[i] < ItemIds(rows)[j];
      }
    }
    forall k | 0 <= k < |all| ensures 1 <= all[k].id < next + |n| && HasQuote(qs, all[k].orcamentoId) {
      if k >= |rows| { assert all[k] == n[k - |rows|]; }
      else { assert ItemIds(rows)[k] == all[k].id; }
    }
  }
}

/**
  The order history view (src/components/OrderHistory.tsx): the list of
  server orders, replaced by a successful load and thinned by a successful
  delete. Failures are only logged to the console and change nothing.
 */
module History {
  import opened Wrappers
  import opened Remote
  import Lists
  import TokenStore

  /** `orders.filter((x) => x.Order_ID !== id)`. */
  function RemoveOrder(orders: seq<Pizza>, id: int): (r: seq<Pizza>)
    ensures forall x :: x in r <==> x in orders && x.orderId != id
    ensures (forall x :: x in orders ==> x.orderId != id) ==> r == orders
  {
    var keep := (x: Pizza) => x.orderId != id;
    Lists.FilterMembership(orders, keep);
    Lists.FilterKeepsAll(orders, keep);
    Lists.Filter(orders, keep)
  }

  /** Removal keeps the surviving rows in their original order. */
  lemma RemoveOrderKeepsOrder(a: seq<Pizza>, b: seq<Pizza>, id: int)
    ensures RemoveOrder(a + b, id) == RemoveOrder(a, id) + RemoveOrder(b, id)
  {
    Lists.FilterAppend(a, b, (x: Pizza) => x.orderId != id);
  }

  class OrderHistoryView {
    var orders: seq<Pizza>

    constructor ()
      ensures orders == []
    {
      orders := [];
    }

    /**
      `loadOrderHistory`: with a token, one authorised list request; its
      answer (None when the request fails) replaces the rows on success. A
      token error issues nothing. Every failure leaves the rows as they were.
     */
    method LoadOrderHistory(
      stored: TokenStore.StoredJwt, claims: TokenStore.Claims, nowMs: nat,
      response: Option<seq<Pizza>>, service: Service)
      modifies this, service
      ensures var token := TokenStore.GetToken(stored, claims, nowMs);
        && service.log == old(service.log) +
             (if token.Ok? then [Exchange(ListOrders(Some(Bearer(token.value))), response.Some?)] else [])
        && orders == if token.Ok? && response.Some? then response.value else old(orders)
    {
      var token := TokenStore.GetToken(stored, claims, nowMs);
      if token.Err? {
        return;
      }
      var ok := service.Send(ListOrders(Some(Bearer(token.value))), response.Some?);
      if ok {
        orders := response.value;
      }
    }

    /**
      `handleDeleteClick`: one delete request for `id`, sent without an
      Authorization header; only when it succeeds are the rows with that id
      dropped.
     */
    method HandleDeleteClick(id: int, succeeds: bool, service: Service)
      modifies this, service
      ensures service.log == old(service.log) + [Exchange(DeleteOrder(id, None), succeeds)]
      ensures orders == if succeeds then RemoveOrder(old(orders), id) else old(orders)
    {
      var ok := service.Send(DeleteOrder(id, None), succeeds);
      if ok {
        orders := RemoveOrder(orders, id);
      }
    }
  }
}

/**
  The remote order service, seen from the client: the requests the client
  issues and whether each one succeeded. Whether a request succeeds is decided
  by the service and the network, so it is an input of `Send`.
 */
module Remote {
  import opened Wrappers

  /** A server-owned order record, one per pizza (`Pizza` in the source). */
  datatype Pizza = Pizza(
    orderId: int,
    crust: string,
    flavor: string,
    size: string,
    tableNo: int,
    timestamp: string)

  /** The body of a create request: crust, flavor, size and table only. */
  datatype PizzaPost = PizzaPost(crust: string, flavor: string, size: string, tableNo: int)

  /** The three calls the client makes, with the Authorization header it sends, if any. */
  datatype Request =
    | CreateOrder(body: PizzaPost, authorization: Option<string>)   // POST /api/orders
    | ListOrders(authorization: Option<string>)                     // GET /api/orders
    | DeleteOrder(orderId: int, authorization: Option<string>)      // DELETE /api/orders/{id}

  /** One issued request and whether it succeeded. */
  datatype Exchange = Exchange(request: Request, succeeded: bool)

  /** The Authorization header value built from a token. */
  function Bearer(token: string): (h: string)
    ensures |h| == |token| + 7 && h[..7] == "Bearer " && h[7..] == token
  {
    "Bearer " + token
  }

  /** The service as a log of every request the client has issued, in order. */
  class Service {
    var log: seq<Exchange>

    constructor ()
      ensures log == []
    {
      log := [];
    }

    /** Issues `request`; `succeeds` is the service's answer. Nothing is ever taken back. */
    method Send(request: Request, succeeds: bool) returns (ok: bool)
      modifies this
      ensures ok == succeeds
      ensures log == old(log) + [Exchange(request, succeeds)]
    {
      log := log + [Exchange(request, succeeds)];
      ok := succeeds;
    }
  }
}

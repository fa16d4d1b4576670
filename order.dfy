/**
  The order builder and submitter (src/components/Order.tsx): draft fields
  for one line item, a pending list of line items, and the submission that
  expands every item into one create request per pizza.
 */
module Order {
  import opened Wrappers
  import opened Remote
  import Lists
  import TokenStore

  /** The draft fields of the form. */
  datatype Draft = Draft(flavor: string, crust: string, size: string, table: int, quantity: int)

  /** A pending line item, with the client-generated id the grid uses as row id. */
  datatype PendingItem = PendingItem(
    crust: string,
    flavor: string,
    size: string,
    tableNo: int,
    quantity: int,
    uuid: string)

  /** The form fields that can show a "Required" hint. */
  datatype Field = FlavorField | CrustField | SizeField | TableField | QuantityField

  /** `validateOrder`: the draft can be added to the order. */
  predicate IsComplete(d: Draft)
  {
    |d.flavor| > 0 && |d.crust| > 0 && |d.size| > 0 && d.table > 0 && d.quantity > 0
  }

  /** The "Required" hint of field `f`: shown once an add was attempted, while the field is empty (or exactly 0). */
  predicate ShowsRequired(pressedAdd: bool, d: Draft, f: Field)
  {
    pressedAdd &&
    match f
    case FlavorField => |d.flavor| == 0
    case CrustField => |d.crust| == 0
    case SizeField => |d.size| == 0
    case TableField => d.table == 0
    case QuantityField => d.quantity == 0
  }

  /** Whether the "Submit Order" button is enabled. */
  predicate SubmitEnabled(order: seq<PendingItem>, sending: bool)
  {
    !(|order| == 0 || sending)
  }

  /** The draft an item was made from. */
  function DraftOf(item: PendingItem): Draft
  {
    Draft(item.flavor, item.crust, item.size, item.tableNo, item.quantity)
  }

  /** Every item the form can put in the list: complete, and for exactly one pizza. */
  predicate WellFormedItems(items: seq<PendingItem>)
  {
    forall i :: 0 <= i < |items| ==> IsComplete(DraftOf(items[i])) && items[i].quantity == 1
  }

  /**
    With the clamped fields the form keeps (table never negative, quantity never
    negative), the draft is complete exactly when, after an add attempt, no
    field shows its "Required" hint.
   */
  lemma CompleteIffNoRequiredHint(d: Draft)
    requires d.table >= 0 && d.quantity >= 0
    ensures IsComplete(d) <==> forall f :: !ShowsRequired(true, d, f)
  {
    if !IsComplete(d) {
      var f :=
        if |d.flavor| == 0 then FlavorField
        else if |d.crust| == 0 then CrustField
        else if |d.size| == 0 then SizeField
        else if d.table == 0 then TableField
        else QuantityField;
      assert ShowsRequired(true, d, f);
    }
  }

  // ---- deleting a pending item ----

  /** `order.filter((x) => x.UUID !== id)`. */
  function RemoveItem(items: seq<PendingItem>, uuid: string): (r: seq<PendingItem>)
    ensures forall x :: x in r <==> x in items && x.uuid != uuid
    ensures (forall x :: x in items ==> x.uuid != uuid) ==> r == items
  {
    var keep := (x: PendingItem) => x.uuid != uuid;
    Lists.FilterMembership(items, keep);
    Lists.FilterKeepsAll(items, keep);
    Lists.Filter(items, keep)
  }

  /** Removal keeps the surviving items in their original order. */
  lemma RemoveItemKeepsOrder(a: seq<PendingItem>, b: seq<PendingItem>, uuid: string)
    ensures RemoveItem(a + b, uuid) == RemoveItem(a, uuid) + RemoveItem(b, uuid)
  {
    Lists.FilterAppend(a, b, (x: PendingItem) => x.uuid != uuid);
  }

  // ---- expanding the list into create requests ----

  /** The body posted for an item: its crust, flavor, size and table, never its quantity. */
  function PostBody(item: PendingItem): PizzaPost
  {
    PizzaPost(item.crust, item.flavor, item.size, item.tableNo)
  }

  /** `n` copies of `x`; none when `n` is not positive. */
  function Repeat<T>(x: T, n: int): (r: seq<T>)
    ensures |r| == if n > 0 then n else 0
    ensures forall i :: 0 <= i < |r| ==> r[i] == x
    decreases n
  {
    if n <= 0 then [] else Repeat(x, n - 1) + [x]
  }

  /** The bodies the nested loops of `submitOrder` post, in order. */
  function Expand(items: seq<PendingItem>): seq<PizzaPost>
  {
    if items == [] then [] else Repeat(PostBody(items[0]), items[0].quantity) + Expand(items[1..])
  }

  /** The number of pizzas in the list: the sum of the positive quantities. */
  function TotalQuantity(items: seq<PendingItem>): nat
  {
    if items == [] then 0
    else (if items[0].quantity > 0 then items[0].quantity else 0) + TotalQuantity(items[1..])
  }

  /** One request is posted per pizza. */
  lemma {:induction false} ExpandLength(items: seq<PendingItem>)
    ensures |Expand(items)| == TotalQuantity(items)
  {
    if items != [] {
      ExpandLength(items[1..]);
    }
  }

  /** The requests for a list are those of its first part, then those of the rest. */
  lemma {:induction false} ExpandAppend(a: seq<PendingItem>, b: seq<PendingItem>)
    ensures Expand(a + b) == Expand(a) + Expand(b)
  {
    if a == [] {
      assert a + b == b;
    } else {
      assert (a + b)[0] == a[0] && (a + b)[1..] == a[1..] + b;
      ExpandAppend(a[1..], b);
    }
  }

  /** For the items the form builds (quantity 1), exactly one body per item, in list order. */
  lemma {:induction false} ExpandUnitItems(items: seq<PendingItem>)
    requires forall i :: 0 <= i < |items| ==> items[i].quantity == 1
    ensures |Expand(items)| == |items|
    ensures forall i :: 0 <= i < |items| ==> Expand(items)[i] == PostBody(items[i])
  {
    if items != [] {
      ExpandUnitItems(items[1..]);
      assert Repeat(PostBody(items[0]), 1) == [PostBody(items[0])];
    }
  }

  // ---- the submission, as a function of its outcomes ----

  /** Successful create requests for `bodies`, in order. */
  function Accepted(bodies: seq<PizzaPost>, auth: Option<string>): (r: seq<Exchange>)
    ensures |r| == |bodies|
  {
    seq(|bodies|, i requires 0 <= i < |bodies| => Exchange(CreateOrder(bodies[i], auth), true))
  }

  /** The requests a submission issues, and the error it reports (None on full success). */
  datatype SubmitResult = SubmitResult(sent: seq<Exchange>, error: Option<string>)

  /**
    What `submitOrder` does given the outcome of the token check and the index
    (within this submission) of the first create request that fails, if any.
   */
  function Submission(
    items: seq<PendingItem>, token: Result<string, TokenStore.TokenError>,
    failAt: Option<nat>, postError: string): (r: SubmitResult)
    // nothing is sent without a token, and the token error is reported
    ensures token.Err? ==> r.sent == [] && r.error == Some(TokenStore.Message(token.error))
    // requests go out in list order then quantity order, each with the bearer token
    ensures |r.sent| <= |Expand(items)|
    ensures token.Ok? ==> forall i :: 0 <= i < |r.sent| ==>
      r.sent[i].request == CreateOrder(Expand(items)[i], Some(Bearer(token.value)))
    // every request before the last one succeeded: a failure stops the submission
    ensures forall i :: 0 <= i < |r.sent| - 1 ==> r.sent[i].succeeded
    // full success exactly when there is a token and no request fails
    ensures r.error.None? <==> token.Ok? && (failAt.None? || failAt.value >= TotalQuantity(items))
    ensures r.error.None? ==> |r.sent| == TotalQuantity(items) && forall e :: e in r.sent ==> e.succeeded
    // a failing request is the last one issued; those before it stay done
    ensures token.Ok? && r.error.Some? ==>
      |r.sent| == failAt.value + 1 && !r.sent[failAt.value].succeeded && r.error.value == postError
  {
    ExpandLength(items);
    match token
    case Err(e) => SubmitResult([], Some(TokenStore.Message(e)))
    case Ok(t) =>
      var bodies, auth := Expand(items), Some(Bearer(t));
      if failAt.Some? && failAt.value < |bodies| then
        var k := failAt.value;
        SubmitResult(Accepted(bodies[..k], auth) + [Exchange(CreateOrder(bodies[k], auth), false)], Some(postError))
      else
        SubmitResult(Accepted(bodies, auth), None)
  }

  /**
    A list the form built (every quantity 1) is sent as exactly one accepted
    create request per item, in list order, when nothing fails.
   */
  lemma FormListPostsOncePerItem(items: seq<PendingItem>, t: string, msg: string)
    requires WellFormedItems(items)
    ensures var r := Submission(items, Ok(t), None, msg);
      r.error.None? && |r.sent| == |items| &&
      forall i :: 0 <= i < |items| ==> r.sent[i] == Exchange(CreateOrder(PostBody(items[i]), Some(Bearer(t))), true)
  {
    ExpandUnitItems(items);
  }

  /** Two items of quantities 2 and 1 whose second request fails: one pizza of the first item stays created. */
  lemma SecondOfThreeFails(a: PendingItem, b: PendingItem, t: string, msg: string)
    requires a.quantity == 2 && b.quantity == 1
    ensures var auth := Some(Bearer(t));
      Submission([a, b], Ok(t), Some(1), msg) ==
        SubmitResult([Exchange(CreateOrder(PostBody(a), auth), true),
                      Exchange(CreateOrder(PostBody(a), auth), false)], Some(msg))
  {
  }

  /** The accepted log of two runs of requests is the two logs in sequence. */
  lemma AcceptedAppend(a: seq<PizzaPost>, b: seq<PizzaPost>, auth: Option<string>)
    ensures Accepted(a + b, auth) == Accepted(a, auth) + Accepted(b, auth)
  {
  }

  /** Splitting the list at item `idx`: the requests before it, its own copies, and those after it. */
  lemma ItemStep(items: seq<PendingItem>, idx: nat)
    requires idx < |items|
    ensures Expand(items[..idx + 1]) == Expand(items[..idx]) + Repeat(PostBody(items[idx]), items[idx].quantity)
    ensures Expand(items) == Expand(items[..idx + 1]) + Expand(items[idx + 1..])
  {
    assert items[..idx + 1] == items[..idx] + [items[idx]];
    ExpandAppend(items[..idx], [items[idx]]);
    assert [items[idx]][1..] == [];
    assert items == items[..idx + 1] + items[idx + 1..];
    ExpandAppend(items[..idx + 1], items[idx + 1..]);
  }

  /** The log after all copies of item `idx` were accepted is the log of the first `idx + 1` items. */
  lemma ItemAccepted(items: seq<PendingItem>, idx: nat, auth: Option<string>, before: seq<Exchange>)
    requires idx < |items|
    ensures var copies := Repeat(PostBody(items[idx]), items[idx].quantity);
      |Expand(items[..idx + 1])| == |Expand(items[..idx])| + |copies| &&
      before + Accepted(Expand(items[..idx]), auth) + Accepted(copies, auth) ==
        before + Accepted(Expand(items[..idx + 1]), auth)
  {
    ItemStep(items, idx);
    AcceptedAppend(Expand(items[..idx]), Repeat(PostBody(items[idx]), items[idx].quantity), auth);
  }

  /** The log after the `k`-th copy of item `idx` failed: the accepted prefix of the whole list, then the failure. */
  lemma ItemFailed(items: seq<PendingItem>, idx: nat, k: nat, auth: Option<string>, before: seq<Exchange>)
    requires idx < |items| && k < |Repeat(PostBody(items[idx]), items[idx].quantity)|
    ensures var body, n, bodies := PostBody(items[idx]), |Expand(items[..idx])| + k, Expand(items);
      n < |bodies| && bodies[n] == body &&
      before + Accepted(Expand(items[..idx]), auth) + Accepted(Repeat(body, k), auth)
        + [Exchange(CreateOrder(body, auth), false)] ==
      before + Accepted(bodies[..n], auth) + [Exchange(CreateOrder(bodies[n], auth), false)]
  {
    var body, done := PostBody(items[idx]), Expand(items[..idx]);
    ItemStep(items, idx);
    StopInsideItem(done, body, items[idx].quantity, Expand(items[idx + 1..]), k);
    AcceptedAppend(done, Repeat(body, k), auth);
  }

  /** The first requests of a submission that stops inside an item's run of copies. */
  lemma StopInsideItem(done: seq<PizzaPost>, body: PizzaPost, quantity: int, rest: seq<PizzaPost>, k: nat)
    requires k < |Repeat(body, quantity)|
    ensures var bodies := done + Repeat(body, quantity) + rest;
      |done| + k < |bodies| && bodies[..|done| + k] == done + Repeat(body, k) && bodies[|done| + k] == body
  {
  }

  /**
    The inner loop of `submitOrder`: posts `body` `quantity` times. `sentBefore`
    counts the requests this submission issued before; the request whose
    count is `failAt` fails and ends the loop.
   */
  method PostPizzas(body: PizzaPost, quantity: int, auth: Option<string>, sentBefore: nat, failAt: Option<nat>, service: Service)
    returns (sent: nat, failed: bool)
    requires failAt.None? || failAt.value >= sentBefore
    modifies service
    ensures !failed ==>
      sent == sentBefore + |Repeat(body, quantity)| && (failAt.None? || failAt.value >= sent) &&
      service.log == old(service.log) + Accepted(Repeat(body, quantity), auth)
    ensures failed ==>
      failAt == Some(sent) && sentBefore <= sent < sentBefore + |Repeat(body, quantity)| &&
      service.log == old(service.log) + Accepted(Repeat(body, sent - sentBefore), auth)
                     + [Exchange(CreateOrder(body, auth), false)]
  {
    sent := sentBefore;
    var i := 0;
    while i < quantity
      invariant 0 <= i <= |Repeat(body, quantity)| && sent == sentBefore + i
      invariant failAt.None? || failAt.value >= sent
      invariant service.log == old(service.log) + Accepted(Repeat(body, i), auth)
    {
      var ok := service.Send(CreateOrder(body, auth), failAt != Some(sent));
      if !ok {
        return sent, true;
      }
      AcceptedAppend(Repeat(body, i), [body], auth);
      assert Repeat(body, i + 1) == Repeat(body, i) + [body];
      sent, i := sent + 1, i + 1;
    }
    assert Repeat(body, i) == Repeat(body, quantity);
    failed := false;
  }

  /**
    The outer loop of `submitOrder`: posts the items in list order, each
    `quantity` times, and gives the index of the request that failed, if any.
   */
  method PostOrderItems(items: seq<PendingItem>, auth: Option<string>, failAt: Option<nat>, service: Service)
    returns (failedAt: Option<nat>)
    modifies service
    ensures var bodies := Expand(items);
      if failAt.Some? && failAt.value < |bodies| then
        failedAt == failAt &&
        service.log == old(service.log) + Accepted(bodies[..failAt.value], auth)
                       + [Exchange(CreateOrder(bodies[failAt.value], auth), false)]
      else
        failedAt.None? && service.log == old(service.log) + Accepted(bodies, auth)
  {
    var sent: nat := 0;
    var idx := 0;
    while idx < |items|
      invariant 0 <= idx <= |items|
      invariant sent == |Expand(items[..idx])| && (failAt.None? || failAt.value >= sent)
      invariant service.log == old(service.log) + Accepted(Expand(items[..idx]), auth)
    {
      var orderItem := items[idx];
      var body := PostBody(orderItem);
      var next, failed := PostPizzas(body, orderItem.quantity, auth, sent, failAt, service);
      if failed {
        ItemFailed(items, idx, next - sent, auth, old(service.log));
        return Some(next);
      }
      ItemAccepted(items, idx, auth, old(service.log));
      sent, idx := next, idx + 1;
    }
    assert items[..idx] == items;
    return None;
  }

  // ---- the component's state ----

  class OrderForm {
    var flavor: string
    var crust: string
    var size: string
    var table: int
    var quantity: int
    var isValidOrder: bool
    var hasPressedAddToOrder: bool
    var order: seq<PendingItem>
    var isSendingOrder: bool
    var openSuccessSnackbar: bool
    var openErrorSnackbar: bool
    var errorSnackbarMessage: string

    function CurrentDraft(): Draft
      reads this
    {
      Draft(flavor, crust, size, table, quantity)
    }

    /**
      What holds between handler calls: the clamps have been applied, the
      validity flag has been recomputed for the current draft, and every
      pending item was added from a complete draft.
     */
    ghost predicate Valid()
      reads this
    {
      table >= 0 && quantity == 1 &&
      isValidOrder == IsComplete(CurrentDraft()) &&
      WellFormedItems(order) &&
      !isSendingOrder
    }

    /** Everything except the draft and the validity flag. */
    twostate predicate ListAndFlagsUnchanged()
      reads this
    {
      order == old(order) &&
      hasPressedAddToOrder == old(hasPressedAddToOrder) &&
      isSendingOrder == old(isSendingOrder) &&
      openSuccessSnackbar == old(openSuccessSnackbar) &&
      openErrorSnackbar == old(openErrorSnackbar) &&
      errorSnackbarMessage == old(errorSnackbarMessage)
    }

    constructor ()
      ensures Valid()
      ensures CurrentDraft() == Draft("", "", "", 0, 1)
      ensures order == [] && !hasPressedAddToOrder && !isValidOrder
      ensures !openSuccessSnackbar && !openErrorSnackbar && errorSnackbarMessage == ""
    {
      flavor, crust, size := "", "", "";
      table, quantity := 0, 1;
      isValidOrder, hasPressedAddToOrder := false, false;
      order := [];
      isSendingOrder := false;
      openSuccessSnackbar, openErrorSnackbar := false, false;
      errorSnackbarMessage := "";
    }

    /** The effect that runs after every render: recompute the validity flag. */
    method ValidateOrder()
      modifies this
      ensures isValidOrder == IsComplete(CurrentDraft())
      ensures CurrentDraft() == old(CurrentDraft()) && ListAndFlagsUnchanged()
    {
      isValidOrder := |flavor| > 0 && |crust| > 0 && |size| > 0 && table > 0 && quantity > 0;
    }

    method HandleFlavorChange(value: string)
      requires Valid()
      modifies this
      ensures Valid() && ListAndFlagsUnchanged()
      ensures CurrentDraft() == old(CurrentDraft()).(flavor := value)
    {
      flavor := value;
      ValidateOrder();
    }

    method HandleCrustChange(value: string)
      requires Valid()
      modifies this
      ensures Valid() && ListAndFlagsUnchanged()
      ensures CurrentDraft() == old(CurrentDraft()).(crust := value)
    {
      crust := value;
      ValidateOrder();
    }

    method HandleSizeChange(value: string)
      requires Valid()
      modifies this
      ensures Valid() && ListAndFlagsUnchanged()
      ensures CurrentDraft() == old(CurrentDraft()).(size := value)
    {
      size := value;
      ValidateOrder();
    }

    /** A negative table number becomes 0; any other value is kept. */
    method HandleTableChange(value: int)
      requires Valid()
      modifies this
      ensures Valid() && ListAndFlagsUnchanged()
      ensures CurrentDraft() == old(CurrentDraft()).(table := if value < 0 then 0 else value)
    {
      var v := value;
      if v < 0 {
        v := 0;
      }
      table := v;
      ValidateOrder();
    }

    /** Any quantity other than 1 is replaced by 1. */
    method HandleQuantityChange(value: int)
      requires Valid()
      modifies this
      ensures Valid() && ListAndFlagsUnchanged()
      ensures CurrentDraft() == old(CurrentDraft()).(quantity := 1)
    {
      var v := value;
      if v < 1 || v > 1 {
        v := 1;
      }
      quantity := v;
      ValidateOrder();
    }

    /** Removes every pending item with this UUID. */
    method HandleDeleteClick(uuid: string)
      requires Valid()
      modifies this
      ensures Valid()
      ensures order == RemoveItem(old(order), uuid)
      ensures CurrentDraft() == old(CurrentDraft()) && isValidOrder == old(isValidOrder)
      ensures hasPressedAddToOrder == old(hasPressedAddToOrder)
      ensures openSuccessSnackbar == old(openSuccessSnackbar) && openErrorSnackbar == old(openErrorSnackbar)
      ensures errorSnackbarMessage == old(errorSnackbarMessage)
    {
      order := RemoveItem(order, uuid);
    }

    /**
      Marks that an add was attempted; when the draft is complete, appends one
      item copying it, with the fresh id `newUuid`. The draft is not reset.
     */
    method AddToOrder(newUuid: string)
      requires Valid()
      modifies this
      ensures Valid() && hasPressedAddToOrder
      ensures CurrentDraft() == old(CurrentDraft()) && isValidOrder == old(isValidOrder)
      ensures order == if IsComplete(CurrentDraft())
        then old(order) + [PendingItem(crust, flavor, size, table, quantity, newUuid)]
        else old(order)
      ensures isSendingOrder == old(isSendingOrder)
      ensures openSuccessSnackbar == old(openSuccessSnackbar) && openErrorSnackbar == old(openErrorSnackbar)
      ensures errorSnackbarMessage == old(errorSnackbarMessage)
    {
      hasPressedAddToOrder := true;
      if !isValidOrder {
        return;
      }
      var pizzas := PendingItem(crust, flavor, size, table, quantity, newUuid);
      order := order + [pizzas];
    }

    /**
      `submitOrder`: checks the token, then posts one create request per pizza,
      item by item, stopping at the first failure. On full success the list is
      emptied and the success notice opens; on any failure the list is kept,
      the error notice opens with the error's message, and the requests already
      made stay made.
     */
    method SubmitOrder(
      stored: TokenStore.StoredJwt, claims: TokenStore.Claims, nowMs: nat,
      failAt: Option<nat>, postError: string, service: Service)
      requires Valid()
      modifies this, service
      ensures Valid()
      ensures var s := Submission(old(order), TokenStore.GetToken(stored, claims, nowMs), failAt, postError);
        && service.log == old(service.log) + s.sent
        && (s.error.None? ==>
              order == [] && openSuccessSnackbar &&
              openErrorSnackbar == old(openErrorSnackbar) && errorSnackbarMessage == old(errorSnackbarMessage))
        && (s.error.Some? ==>
              order == old(order) && openErrorSnackbar && errorSnackbarMessage == s.error.value &&
              openSuccessSnackbar == old(openSuccessSnackbar))
      ensures !isSendingOrder
      ensures SubmitEnabled(order, isSendingOrder) <==>
        Submission(old(order), TokenStore.GetToken(stored, claims, nowMs), failAt, postError).error.Some? &&
        |old(order)| > 0
      ensures CurrentDraft() == old(CurrentDraft()) && isValidOrder == old(isValidOrder)
      ensures hasPressedAddToOrder == old(hasPressedAddToOrder)
    {
      isSendingOrder := true;
      var token := TokenStore.GetToken(stored, claims, nowMs);
      if token.Err? {
        openErrorSnackbar := true;
        errorSnackbarMessage := TokenStore.Message(token.error);
      } else {
        var items := order;
        var failedAt := PostOrderItems(items, Some(Bearer(token.value)), failAt, service);
        if failedAt.Some? {
          openErrorSnackbar := true;
          errorSnackbarMessage := postError;
        } else {
          openSuccessSnackbar := true;
          order := [];
        }
      }
      isSendingOrder := false;
    }
  }
}

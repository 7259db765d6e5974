/** The orders service's routes (`service-orders/app/routes.py`). Its two
    HTTP calls to the artwork service become sequential calls into the
    `Catalog` model; the orders service only asks whether each answer was a
    200. The two services decode tokens independently, each with its own
    configured secret, so they take separate decoders. */
module Orders {
  import opened Results
  import opened Tables
  import opened Tokens
  import Catalog

  /** The values the `status` column is documented to hold. */
  datatype OrderStatus = Created | Confirmed | Failed
  {
    function Name(): string
    {
      match this
      case Created => "created"
      case Confirmed => "confirmed"
      case Failed => "failed"
    }
  }

  datatype Order = Order(id: int, artId: int, buyer: string, status: OrderStatus)

  type OrderTable = Table<Order>

  /** A request the orders service sends to the artwork service. */
  datatype Call = FetchArtwork(artId: int) | ReserveArtwork(artId: int)

  /** The outcome of `POST /orders`: the answer, both stores afterwards, and
      the remote calls that were made, in order. */
  datatype Placement = Placement(
    result: Result<Order>,
    orders: OrderTable,
    catalog: Catalog.Catalog,
    calls: seq<Call>)

  ghost predicate Valid(t: OrderTable)
  {
    && Tables.Valid(t)
    && forall k :: k in t.rows ==> t.rows[k].id == k
  }

  /** Every ordered artwork exists and is sold. */
  ghost predicate Backed(t: OrderTable, c: Catalog.Catalog)
  {
    forall k :: k in t.rows ==> t.rows[k].artId in c.rows && c.rows[t.rows[k].artId].isSold
  }

  /** No artwork is ordered twice. */
  ghost predicate OnePerArtwork(t: OrderTable)
  {
    forall k, k' :: k in t.rows && k' in t.rows && k != k' ==> t.rows[k].artId != t.rows[k'].artId
  }

  /** `POST /orders`: authenticate, fetch the artwork, refuse a sold one,
      reserve it with `mark_sold`, and only then store a confirmed order. */
  function CreateOrder(
    ordersDecode: Decoder, artworkDecode: Decoder, token: Token, artId: int,
    orders: OrderTable, catalog: Catalog.Catalog): (p: Placement)
    ensures ordersDecode(token).None? ==>
              && p.result.Err? && p.result.error.code == Unauthorized
              && p.orders == orders && p.catalog == catalog && p.calls == []
    ensures ordersDecode(token).Some? && artId !in catalog.rows ==>
              p == Placement(Err(HttpError(BadRequest, "Artwork not found")), orders, catalog, [FetchArtwork(artId)])
    ensures ordersDecode(token).Some? && artId in catalog.rows && catalog.rows[artId].isSold ==>
              p == Placement(Err(HttpError(BadRequest, "Artwork already sold")), orders, catalog, [FetchArtwork(artId)])
    ensures ordersDecode(token).Some? && artId in catalog.rows && !catalog.rows[artId].isSold
              && artworkDecode(token).None? ==>
              p == Placement(Err(HttpError(BadRequest, "Failed to reserve artwork")), orders, catalog,
                             [FetchArtwork(artId), ReserveArtwork(artId)])
    ensures p.result.Ok? <==>
              && ordersDecode(token).Some? && artworkDecode(token).Some?
              && artId in catalog.rows && !catalog.rows[artId].isSold
    ensures p.result.Ok? ==>
              && p.result.value == Order(orders.nextId, artId, ordersDecode(token).value.sub, Confirmed)
              && p.result.value.status.Name() == "confirmed"
              && Get(p.orders, orders.nextId) == Some(p.result.value)
              && SameExcept(orders, p.orders, orders.nextId)
              && p.calls == [FetchArtwork(artId), ReserveArtwork(artId)]
              && Get(p.catalog, artId) == Some(catalog.rows[artId].(isSold := true))
              && SameExcept(catalog, p.catalog, artId)
    ensures p.result.Err? ==> p.orders == orders && p.catalog == catalog
  {
    match CurrentUser(ordersDecode, token)
    case Err(e) => Placement(Err(e), orders, catalog, [])
    case Ok(user) =>
      var buyer := user.sub;
      var artResp := Catalog.GetArt(catalog, artId);
      if artResp.Status() != 200 then
        Placement(Err(HttpError(BadRequest, "Artwork not found")), orders, catalog, [FetchArtwork(artId)])
      else if artResp.value.isSold then
        Placement(Err(HttpError(BadRequest, "Artwork already sold")), orders, catalog, [FetchArtwork(artId)])
      else
        var markResp := Catalog.MarkSold(artworkDecode, token, artId, catalog);
        var calls := [FetchArtwork(artId), ReserveArtwork(artId)];
        if markResp.result.Status() != 200 then
          Placement(Err(HttpError(BadRequest, "Failed to reserve artwork")), orders, markResp.state, calls)
        else
          var order := Order(orders.nextId, artId, buyer, Confirmed);
          Placement(Ok(order), Insert(orders, order), markResp.state, calls)
  }

  /** `GET /orders/{order_id}`: any caller may read any order. */
  function GetOrder(t: OrderTable, id: int): (r: Result<Order>)
    ensures r.Ok? <==> id in t.rows
    ensures r.Ok? ==> r.value == t.rows[id]
    ensures r.Err? ==> r.error == HttpError(NotFound, "Order not found")
  {
    match Get(t, id)
    case Some(o) => Ok(o)
    case None => Err(HttpError(NotFound, "Order not found"))
  }

  /** `GET /orders?skip=&limit=`: every caller sees the same unfiltered page;
      a parameter left out takes its default. */
  function ListOrders(t: OrderTable, skip: Option<nat>, limit: Option<nat>): seq<Order>
  {
    Page(Rows(t), OrDefault(skip, DefaultSkip), OrDefault(limit, DefaultLimit))
  }

  /** A page of orders is the orders with ids skip+1, skip+2, ..., at most
      `limit` of them and fewer only when the table runs out, whoever bought them. */
  lemma ListOrdersIsPage(t: OrderTable, skip: nat, limit: nat)
    requires Valid(t)
    ensures var r := ListOrders(t, Some(skip), Some(limit));
      && |r| <= limit
      && |r| == (if skip >= t.nextId - 1 then 0 else Min(limit, t.nextId - 1 - skip))
      && forall i :: 0 <= i < |r| ==> r[i].id == skip + i + 1 && r[i] == t.rows[r[i].id]
  {
    PageOfValid(t, skip, limit);
  }

  /** `GET /orders` with no parameters shows the orders with ids 1, 2, ...,
      at most 100 of them, whoever bought them. */
  lemma ListOrdersDefault(t: OrderTable)
    requires Valid(t)
    ensures var r := ListOrders(t, None, None);
      && |r| == Min(100, t.nextId - 1)
      && (forall i :: 0 <= i < |r| ==> r[i].id == i + 1 && r[i] == t.rows[i + 1])
      && (t.nextId - 1 <= 100 ==> r == Rows(t))
  {
    DefaultPageOfValid(t);
  }

  /** The order a successful placement returns is the one `GET /orders/{id}`
      reads back under its id. */
  lemma CreateOrderThenGetOrder(
    ordersDecode: Decoder, artworkDecode: Decoder, token: Token, artId: int,
    orders: OrderTable, catalog: Catalog.Catalog)
    requires CreateOrder(ordersDecode, artworkDecode, token, artId, orders, catalog).result.Ok?
    ensures var p := CreateOrder(ordersDecode, artworkDecode, token, artId, orders, catalog);
      && GetOrder(p.orders, p.result.value.id) == Ok(p.result.value)
      && GetOrder(p.orders, p.result.value.id).value.artId == artId
  {
  }

  /** A confirmed order always follows a reservation that flipped its
      artwork from unsold to sold. */
  lemma OrderOnlyAfterReservation(
    ordersDecode: Decoder, artworkDecode: Decoder, token: Token, artId: int,
    orders: OrderTable, catalog: Catalog.Catalog)
    requires CreateOrder(ordersDecode, artworkDecode, token, artId, orders, catalog).result.Ok?
    ensures var p := CreateOrder(ordersDecode, artworkDecode, token, artId, orders, catalog);
      && Catalog.GetArt(catalog, artId).Ok? && !Catalog.GetArt(catalog, artId).value.isSold
      && Catalog.MarkSold(artworkDecode, token, artId, catalog).result.Ok?
      && p.catalog == Catalog.MarkSold(artworkDecode, token, artId, catalog).state
      && Catalog.GetArt(p.catalog, artId).Ok? && Catalog.GetArt(p.catalog, artId).value.isSold
  {
  }

  /** Once the artwork service accepts the token, a failed reservation
      cannot follow a successful unsold lookup: run one after the other, the
      only way to reach "Failed to reserve artwork" is a token the artwork
      service rejects. */
  lemma ReservationFailsOnlyOnAuth(
    ordersDecode: Decoder, artworkDecode: Decoder, token: Token, artId: int,
    orders: OrderTable, catalog: Catalog.Catalog)
    requires CreateOrder(ordersDecode, artworkDecode, token, artId, orders, catalog).result
             == Err(HttpError(BadRequest, "Failed to reserve artwork"))
    ensures artworkDecode(token).None?
    ensures Catalog.MarkSold(artworkDecode, token, artId, catalog).result.error.code == Unauthorized
  {
  }

  /** Placing orders one after another keeps every ordered artwork sold and
      never orders an artwork twice. */
  lemma CreateOrderPreservesInvariant(
    ordersDecode: Decoder, artworkDecode: Decoder, token: Token, artId: int,
    orders: OrderTable, catalog: Catalog.Catalog)
    requires Valid(orders) && Catalog.Valid(catalog)
    requires Backed(orders, catalog) && OnePerArtwork(orders)
    ensures var p := CreateOrder(ordersDecode, artworkDecode, token, artId, orders, catalog);
      && Valid(p.orders) && Catalog.Valid(p.catalog) && Catalog.SoldMonotone(catalog, p.catalog)
      && Backed(p.orders, p.catalog) && OnePerArtwork(p.orders)
  {
  }

  /** Changes to the catalog that only sell artworks keep existing orders backed. */
  lemma BackedUnderCatalogGrowth(t: OrderTable, c: Catalog.Catalog, c': Catalog.Catalog)
    requires Backed(t, c) && Catalog.SoldMonotone(c, c')
    ensures Backed(t, c')
  {
  }
}

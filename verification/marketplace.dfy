/** The three services side by side, handling one request at a time. The
    invariant that ties them together: ids stay dense, usernames stay unique,
    every ordered artwork is sold, and no artwork is ordered twice. */
module Marketplace {
  import opened Results
  import opened Tables
  import opened Tokens
  import Catalog
  import Orders
  import Auth

  /** What each deployment is configured with: salted password hashing and
      checking, the auth service's token signer, and each service's token decoder. */
  datatype Env = Env(
    hash: (string, string) -> string,
    check: Auth.PasswordCheck,
    encode: Encoder,
    authDecode: Decoder,
    artworkDecode: Decoder,
    ordersDecode: Decoder)

  datatype World = World(users: Auth.Registry, catalog: Catalog.Catalog, orders: Orders.OrderTable)

  /** Every endpoint of the three services. */
  datatype Request =
    | Register(username: string, password: string, role: Option<string>, salt: string)
    | Login(username: string, password: string)
    | ReadMe(token: Token)
    | VerifyToken(token: Token)
    | CreateArtwork(token: Token, art: Catalog.ArtworkIn)
    | ListArtworks(skip: Option<nat>, limit: Option<nat>)
    | GetArt(artId: int)
    | MarkSold(token: Token, artId: int)
    | CreateOrder(token: Token, artId: int)
    | GetOrder(orderId: int)
    | ListOrders(skip: Option<nat>, limit: Option<nat>)

  /** The hash a registration stores: the configured hash under the salt
      that this request drew. */
  function Salted(env: Env, salt: string): Auth.Hasher
  {
    (password: string) => env.hash(salt, password)
  }

  function Initial(): World
  {
    World(Empty(), Empty(), Empty())
  }

  ghost predicate Inv(w: World)
  {
    && Auth.Valid(w.users)
    && Catalog.Valid(w.catalog)
    && Orders.Valid(w.orders)
    && Orders.Backed(w.orders, w.catalog)
    && Orders.OnePerArtwork(w.orders)
  }

  /** The state after handling one request; reads leave it unchanged. */
  function Next(env: Env, w: World, req: Request): World
  {
    match req
    case Register(username, password, role, salt) =>
      w.(users := Auth.Register(Salted(env, salt), w.users, username, password, role).state)
    case CreateArtwork(token, art) =>
      w.(catalog := Catalog.CreateArtwork(env.artworkDecode, token, art, w.catalog).state)
    case MarkSold(token, artId) =>
      w.(catalog := Catalog.MarkSold(env.artworkDecode, token, artId, w.catalog).state)
    case CreateOrder(token, artId) =>
      var p := Orders.CreateOrder(env.ordersDecode, env.artworkDecode, token, artId, w.orders, w.catalog);
      w.(catalog := p.catalog, orders := p.orders)
    case _ => w
  }

  /** The state after handling the requests in order. */
  function Run(env: Env, w: World, reqs: seq<Request>): World
    decreases |reqs|
  {
    if |reqs| == 0 then w else Run(env, Next(env, w, reqs[0]), reqs[1..])
  }

  lemma InitialInv()
    ensures Inv(Initial())
  {
  }

  /** Each request keeps the invariant and never unsells an artwork. */
  lemma NextPreservesInv(env: Env, w: World, req: Request)
    requires Inv(w)
    ensures Inv(Next(env, w, req))
    ensures Catalog.SoldMonotone(w.catalog, Next(env, w, req).catalog)
  {
    match req
    case Register(username, password, role, salt) =>
      Auth.RegisterPreservesValid(Salted(env, salt), w.users, username, password, role);
    case CreateArtwork(token, art) =>
      Orders.BackedUnderCatalogGrowth(w.orders, w.catalog, Next(env, w, req).catalog);
    case MarkSold(token, artId) =>
      Orders.BackedUnderCatalogGrowth(w.orders, w.catalog, Next(env, w, req).catalog);
    case CreateOrder(token, artId) =>
      Orders.CreateOrderPreservesInvariant(env.ordersDecode, env.artworkDecode, token, artId, w.orders, w.catalog);
    case _ =>
  }

  /** Any sequence of requests keeps the invariant, and `is_sold` only ever
      goes from false to true along the way. */
  lemma {:induction false} RunPreservesInv(env: Env, w: World, reqs: seq<Request>)
    requires Inv(w)
    ensures Inv(Run(env, w, reqs))
    ensures Catalog.SoldMonotone(w.catalog, Run(env, w, reqs).catalog)
    decreases |reqs|
  {
    if |reqs| > 0 {
      var w' := Next(env, w, reqs[0]);
      NextPreservesInv(env, w, reqs[0]);
      RunPreservesInv(env, w', reqs[1..]);
      Catalog.SoldMonotoneTrans(w.catalog, w'.catalog, Run(env, w', reqs[1..]).catalog);
    }
  }

  /** From a fresh deployment, whatever requests arrive, no two users share a
      username, every order's artwork is sold, and each artwork has at most one order. */
  lemma ReachableInv(env: Env, reqs: seq<Request>)
    ensures var w := Run(env, Initial(), reqs);
      && Auth.UniqueNames(w.users)
      && Orders.Backed(w.orders, w.catalog)
      && Orders.OnePerArtwork(w.orders)
  {
    InitialInv();
    RunPreservesInv(env, Initial(), reqs);
  }

  /** The end-to-end purchase: an artist lists an artwork, a buyer orders it,
      and the order and the catalog agree. */
  lemma PurchaseScenario(env: Env, w: World, artistToken: Token, buyerToken: Token, art: Catalog.ArtworkIn)
    requires Inv(w)
    requires env.artworkDecode(artistToken).Some? && Catalog.MayCreate(env.artworkDecode(artistToken).value.role)
    requires env.ordersDecode(buyerToken).Some? && env.artworkDecode(buyerToken).Some?
    ensures var w1 := Next(env, w, CreateArtwork(artistToken, art));
      var artId := w.catalog.nextId;
      var p := Orders.CreateOrder(env.ordersDecode, env.artworkDecode, buyerToken, artId, w1.orders, w1.catalog);
      && p.result.Ok?
      && p.result.value.artId == artId
      && p.result.value.buyer == env.ordersDecode(buyerToken).value.sub
      && p.catalog.rows[artId].isSold
      && p.catalog.rows[artId].owner == env.artworkDecode(artistToken).value.sub
  {
  }
}

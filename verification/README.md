# ArtScape marketplace: request handling of the auth, artwork and orders services

This project models the three request handlers of the ArtScape marketplace
in Dafny and proves properties about them:

- the **artwork catalog** (`service-artwork/app/routes.py`): create, list, get and `mark_sold`;
- the **order placement** workflow (`service-orders/app/routes.py`): fetch the
  artwork, refuse it if it is sold, reserve it with `mark_sold`, then store a
  confirmed order; plus order lookup and listing;
- the **user registry** (`service-auth/app/main.py`): register, login, `/auth/me` and `/auth/verify`.

Every endpoint is a pure function. It takes the store (a table of rows keyed
by an auto-incremented id) and returns the HTTP answer (a 200 body or an
error status with its `detail` message) together with the new store. The
orders service's two HTTP calls to the artwork service become sequential
calls into the catalog model. The orders side looks only at whether each
answer was a 200, and it records which remote calls it made.

Password hashing and checking, token signing and token decoding are
parameters. Each service gets its own decoder, because each reads its own
secret key from its environment. A token that one service accepts may
therefore be rejected by another. In particular, the artwork service may
reject the token that the orders service accepted. That is the only way the
"Failed to reserve artwork" path can happen when requests run one at a time.
An expired token is one the decoder maps to `None`.

Modules:

- `Results`: option, result, and HTTP error values.
- `Tables`: the auto-increment table, listed in id order, with offset/limit paging.
- `Tokens`: claims and the abstract encoder and decoders.
- `Catalog`: the artwork service.
- `Orders`: the orders service.
- `Auth`: the auth service.
- `Marketplace`: all three services together. It states the invariant that
  ties them together and proves that any sequence of requests preserves it.

`create_order` runs no role check (service-orders/app/routes.py:18-20), and
`list_orders` returns the same unfiltered page to every caller
(service-orders/app/routes.py:49-51). The model does the same.

Both list endpoints take `skip` and `limit` query parameters with defaults
0 and 100. The model's list requests take optional values that fall back to
`Tables.DefaultSkip` and `Tables.DefaultLimit`. So a listing requested
without parameters shows at most the first 100 rows.

## Model

| member | source | states |
|---|---|---|
| Tables.Page | service-orders/app/routes.py:51 | `.offset(skip).limit(limit)` returns at most `limit` rows: exactly `min(limit, n - skip)` of them, or none once `skip` reaches the end. Row `i` of the page is row `skip + i` of the listing. |
| Tables.PageConcat | service-artwork/app/routes.py:57-70 | Two consecutive pages of sizes `a` and `b` together form the page of size `a + b`, so paging neither skips nor repeats rows. |
| Tables.InsertAppends | service-artwork/app/routes.py:51-53 | Adding and committing a row stores it under the next id and lists it after every existing row. |
| Tokens.CurrentUser | service-artwork/app/auth_utils.py:27-52 | The token dependency yields exactly the decoded claims, or 401 when the token cannot be decoded. |
| Catalog.CreateArtwork | service-artwork/app/routes.py:46-54 | Succeeds iff the token decodes and the role is `artist` or `admin`. An undecodable token gives 401, and any other role gives 403 "Only artists/admins can create artworks"; both leave the catalog unchanged. On success, one artwork is added under a fresh id with owner = token `sub`, the payload's title, description and price, and `is_sold` false. No other artwork changes. |
| Catalog.ListArtworksIsPage | service-artwork/app/routes.py:57-70 | The listing page holds the artworks with ids `skip+1, skip+2, …`. It has at most `limit` of them, and fewer only when the catalog runs out. |
| Catalog.ListArtworksDefault | service-artwork/app/routes.py:57 | `GET /artworks` without parameters uses `skip` 0 and `limit` 100. It shows the artworks with ids 1, 2, …, `min(100, n)` of them, and the whole catalog only when it holds at most 100 artworks. |
| Tables.DefaultPageOfValid | service-orders/app/routes.py:50-51 | A page requested without parameters holds the first `min(100, n)` rows in id order, and it holds the whole table when there are at most 100 rows. |
| Catalog.GetArt | service-artwork/app/routes.py:87-90 | Returns the record stored under the id, or 404 "Artwork not found" exactly when there is none. |
| Catalog.MarkSold | service-artwork/app/routes.py:116-124 | An undecodable token gives 401. A missing id gives 404 "Artwork not found", and an artwork already sold gives 400 "Artwork already sold"; these failures leave the catalog unchanged. Otherwise the call returns the record with `is_sold` true and every other field unchanged, and no other artwork changes. |
| Catalog.MarkSoldListsInPlace | service-artwork/app/routes.py:121-124 | A successful `mark_sold` replaces only that artwork's entry in the listing, in its place. |
| Catalog.CreateArtworkListsLast | service-artwork/app/routes.py:50-53 | A newly created artwork appears last in the listing, after all existing ones. |
| Catalog.MarkSoldOnce | service-artwork/app/routes.py:119-120 | `mark_sold` is not idempotent. After one success, every later call on the same artwork fails, with 400 "Artwork already sold" whenever the token is accepted. |
| Orders.CreateOrder | service-orders/app/routes.py:18-40 | An undecodable token gives 401 with no remote call. A missing artwork gives 400 "Artwork not found" after one fetch and no reservation. A sold artwork gives 400 "Artwork already sold" after one fetch and no reservation. A token that the artwork service rejects gives 400 "Failed to reserve artwork" after a fetch and a reserve. On every failure, no order is stored. Success happens exactly when the artwork exists, is unsold, and both services accept the token. Then one order is appended with `art_id` = the request's id, `buyer` = token `sub` and `status` "confirmed"; existing orders are unchanged, and only that artwork becomes sold. |
| Orders.GetOrder | service-orders/app/routes.py:42-47 | Returns the order stored under the id, or 404 "Order not found" exactly when there is none. No caller check. |
| Orders.ListOrdersIsPage | service-orders/app/routes.py:49-51 | The page holds the orders with ids `skip+1, …`, at most `limit` of them, for any caller, whoever the buyer is. |
| Orders.ListOrdersDefault | service-orders/app/routes.py:50-51 | `GET /orders` without parameters uses `skip` 0 and `limit` 100. It shows the orders with ids 1, 2, …, `min(100, n)` of them, whoever bought them. |
| Orders.CreateOrderThenGetOrder | service-orders/app/routes.py:36-47 | The order that a successful placement returns is exactly what `GET /orders/{id}` reads back under its id, with the requested `art_id`. |
| Orders.OrderOnlyAfterReservation | service-orders/app/routes.py:23-39 | A successful order means three things. The fetch found the artwork unsold. The `mark_sold` call succeeded. Afterwards the artwork reads as sold. |
| Orders.ReservationFailsOnlyOnAuth | service-orders/app/routes.py:30-33 | With requests run one at a time, a failed reservation after a successful unsold fetch can only come from the artwork service rejecting the token with 401. |
| Orders.CreateOrderPreservesInvariant | service-orders/app/routes.py:27-39 | Suppose every ordered artwork is sold and no artwork has two orders. Then `create_order` keeps both facts, keeps ids dense, and sells no artwork back. |
| Orders.BackedUnderCatalogGrowth | service-artwork/app/routes.py:119-121 | Catalog changes that only add artworks or set `is_sold` to true keep every ordered artwork sold. |
| Auth.FirstNamed | service-auth/app/main.py:35 | `.first()` of the username filter finds the earliest user with that name, or none exactly when no user has it. |
| Auth.LookupFinds | service-auth/app/main.py:35-37 | In a valid registry, the lookup fails exactly when no stored user has the name. Otherwise it returns the stored user of that name. |
| Auth.EffectiveRole | service-auth/app/main.py:39 | A missing or empty role becomes "user". Any other role is kept. |
| Auth.Register | service-auth/app/main.py:33-43 | A taken username gives 400 "Username already registered" and leaves the registry unchanged. Otherwise one user is added under a fresh id, with `hash(password)` and the effective role, and no other user changes. The hash function is supplied per call, which stands in for bcrypt's per-call salt. |
| Auth.RegisterPreservesValid | service-auth/app/main.py:35-41 | Registration keeps usernames unique and ids dense. It adds exactly one user on success and none on failure. |
| Auth.RegisterThenLookup | service-auth/app/main.py:38-47 | After a successful registration, looking up the username finds the new user. |
| Auth.Login | service-auth/app/main.py:45-51 | Succeeds iff the user exists and the password check accepts the stored hash. Otherwise it gives 401 "Invalid credentials". The token is the encoding of claims `sub` = username and `role` = stored role, with type "bearer". |
| Auth.ReadMe | service-auth/app/main.py:53-63 | An undecodable token gives 401 "Invalid or expired token". An unknown `sub` gives 404 "User not found". Otherwise the call returns the stored user whose username is the token's `sub`. |
| Auth.Verify | service-auth/app/main.py:65-71 | Returns exactly the decoded `sub` and `role`, or 401 "Invalid token" when decoding fails. |
| Auth.RegisterThenLogin | service-auth/app/main.py:38-50 | This assumes the password check accepts a password against its own hash. Then, after registering, logging in with the same password succeeds and issues a token for that username and effective role. |
| Auth.LoginThenReadMe | service-auth/app/main.py:45-71 | This assumes the decoder reads back what the signer issued. Then a login token authenticates the same user through `/auth/me` and yields the same `sub` and `role` through `/auth/verify`. |
| Marketplace.NextPreservesInv | service-orders/app/routes.py:27-39 | Any single request to any of the three services keeps the invariant: unique usernames, dense ids, every ordered artwork sold, at most one order per artwork. It never sets `is_sold` back to false. |
| Marketplace.RunPreservesInv | service-artwork/app/routes.py:119-121 | Any sequence of requests keeps the invariant, and `is_sold` only ever goes from false to true. |
| Marketplace.ReachableInv | service-auth/app/main.py:35-41 | From an empty deployment, after any requests: usernames are unique, every ordered artwork is sold, and each artwork has at most one order. |
| Marketplace.PurchaseScenario | service-orders/app/routes.py:18-40 | An artist creates an artwork and a buyer then orders it, with tokens both services accept. The order succeeds for that artwork and that buyer. The artwork ends up sold and still owned by the artist. |

## Left out

- JWT signing, expiry and the secret key are not modelled. Each service is given a decoder, and the auth service is given an encoder.
- Tokens.CurrentUser: the artwork service answers an expired token with 401 "Token expired" and other bad tokens with 401 "Invalid token". The model always gives 401 "Invalid token", because the decoder only reports success or failure. The orders service's `auth_utils.py` is not part of this model; it is taken to behave like the artwork service's.
- Claims without a `sub` or `role` are not modelled. The source reads them with `payload.get` and may get `None`; claims here always carry both strings.
- bcrypt hashing and checking are function parameters. A real bcrypt hash draws a fresh salt on every call. In the whole-system model, each registration request carries its own salt, and the deployment's hash function takes that salt and the password. How the salt is drawn, and the fact that bcrypt stores it inside the hash, are not modelled.
- Request validation (422 responses from the request schemas), response-model field filtering, and database commit failures are not modelled.
- Negative `skip` or `limit` values are not modelled, because their effect depends on the database. The model uses natural numbers.
- An unordered `SELECT` is taken to return rows in id order.
- Concurrency is not modelled: requests run one at a time. So the race between the sold check and `mark_sold` under concurrent requests is out of scope.
- Transport errors and the 5-second timeouts of the orders service's HTTP calls are not modelled. In the source they raise an exception rather than a 400.
- The artwork service's base URL and the token forwarded to `GET /artworks/{id}` have no effect in the model. That endpoint does not authenticate.
- Floating-point prices are carried as `real` and never computed with.
- The order statuses `created` and `failed` exist in the `Order` datatype, but no operation assigns them, matching the source.
- The browser UI, the seed scripts, the app wiring and CORS are not modelled.

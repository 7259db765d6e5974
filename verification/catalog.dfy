/** The artwork service's routes (`service-artwork/app/routes.py`) over its
    `artworks` table. */
module Catalog {
  import opened Results
  import opened Tables
  import opened Tokens

  /** Prices are floats in the service; they are only carried, never computed with. */
  type Price = real

  datatype Artwork = Artwork(
    id: int,
    title: string,
    description: Option<string>,
    price: Price,
    owner: string,
    isSold: bool)

  /** The `ArtworkCreate` payload. */
  datatype ArtworkIn = ArtworkIn(title: string, description: Option<string>, price: Price)

  type Catalog = Table<Artwork>

  /** Ids are dense and every record carries the id it is stored under. */
  ghost predicate Valid(c: Catalog)
  {
    && Tables.Valid(c)
    && forall k :: k in c.rows ==> c.rows[k].id == k
  }

  /** From `c` to `c'` no artwork disappears and no `is_sold` goes from true to false. */
  ghost predicate SoldMonotone(c: Catalog, c': Catalog)
  {
    forall k :: k in c.rows ==> k in c'.rows && (c.rows[k].isSold ==> c'.rows[k].isSold)
  }

  /** The roles allowed to create artworks. */
  predicate MayCreate(role: string)
  {
    role == "artist" || role == "admin"
  }

  /** `POST /artworks` */
  function CreateArtwork(decode: Decoder, token: Token, art: ArtworkIn, c: Catalog): (out: Reply<Artwork, Catalog>)
    ensures out.result.Ok? <==> decode(token).Some? && MayCreate(decode(token).value.role)
    ensures decode(token).None? ==> out.result.Err? && out.result.error.code == Unauthorized
    ensures decode(token).Some? && !MayCreate(decode(token).value.role) ==>
              out.result == Err(HttpError(Forbidden, "Only artists/admins can create artworks"))
    ensures out.result.Err? ==> out.state == c
    ensures out.result.Ok? ==>
              var a := out.result.value;
              && a.id == c.nextId
              && a.owner == decode(token).value.sub
              && a.title == art.title && a.description == art.description && a.price == art.price
              && !a.isSold
              && Get(out.state, a.id) == Some(a)
              && SameExcept(c, out.state, a.id)
    ensures Valid(c) && out.result.Ok? ==> out.result.value.id !in c.rows
    ensures Valid(c) ==> Valid(out.state) && SoldMonotone(c, out.state)
  {
    match CurrentUser(decode, token)
    case Err(e) => Reply(Err(e), c)
    case Ok(user) =>
      if !MayCreate(user.role) then
        Reply(Err(HttpError(Forbidden, "Only artists/admins can create artworks")), c)
      else
        var a := Artwork(c.nextId, art.title, art.description, art.price, user.sub, false);
        Reply(Ok(a), Insert(c, a))
  }

  /** `GET /artworks?skip=&limit=`; a parameter left out takes its default. */
  function ListArtworks(c: Catalog, skip: Option<nat>, limit: Option<nat>): seq<Artwork>
  {
    Page(Rows(c), OrDefault(skip, DefaultSkip), OrDefault(limit, DefaultLimit))
  }

  /** `GET /artworks/{art_id}` */
  function GetArt(c: Catalog, id: int): (r: Result<Artwork>)
    ensures r.Ok? <==> id in c.rows
    ensures r.Ok? ==> r.value == c.rows[id]
    ensures r.Err? ==> r.error == HttpError(NotFound, "Artwork not found")
  {
    match Get(c, id)
    case Some(a) => Ok(a)
    case None => Err(HttpError(NotFound, "Artwork not found"))
  }

  /** `POST /artworks/{art_id}/mark_sold`: the one transition of `is_sold`,
      from false to true. Any authenticated caller may make it. */
  function MarkSold(decode: Decoder, token: Token, id: int, c: Catalog): (out: Reply<Artwork, Catalog>)
    ensures out.result.Ok? <==> decode(token).Some? && id in c.rows && !c.rows[id].isSold
    ensures decode(token).None? ==> out.result.Err? && out.result.error.code == Unauthorized
    ensures decode(token).Some? && id !in c.rows ==>
              out.result == Err(HttpError(NotFound, "Artwork not found"))
    ensures decode(token).Some? && id in c.rows && c.rows[id].isSold ==>
              out.result == Err(HttpError(BadRequest, "Artwork already sold"))
    ensures out.result.Err? ==> out.state == c
    ensures out.result.Ok? ==>
              && out.result.value == c.rows[id].(isSold := true)
              && Get(out.state, id) == Some(out.result.value)
              && SameExcept(c, out.state, id)
    ensures Valid(c) ==> Valid(out.state) && SoldMonotone(c, out.state)
  {
    match CurrentUser(decode, token)
    case Err(e) => Reply(Err(e), c)
    case Ok(_) =>
      match Get(c, id)
      case None => Reply(Err(HttpError(NotFound, "Artwork not found")), c)
      case Some(art) =>
        if art.isSold then Reply(Err(HttpError(BadRequest, "Artwork already sold")), c)
        else
          var sold := art.(isSold := true);
          Reply(Ok(sold), Update(c, id, sold))
  }

  /** A page of the listing is the artworks with ids skip+1, skip+2, ...,
      at most `limit` of them and fewer only when the catalog runs out. */
  lemma ListArtworksIsPage(c: Catalog, skip: nat, limit: nat)
    requires Valid(c)
    ensures var r := ListArtworks(c, Some(skip), Some(limit));
      && |r| <= limit
      && |r| == (if skip >= c.nextId - 1 then 0 else Min(limit, c.nextId - 1 - skip))
      && forall i :: 0 <= i < |r| ==> r[i].id == skip + i + 1 && r[i] == c.rows[r[i].id]
  {
    PageOfValid(c, skip, limit);
  }

  /** `GET /artworks` with no parameters shows the artworks with ids 1, 2, ...,
      at most 100 of them: the whole catalog only while it holds no more. */
  lemma ListArtworksDefault(c: Catalog)
    requires Valid(c)
    ensures var r := ListArtworks(c, None, None);
      && |r| == Min(100, c.nextId - 1)
      && (forall i :: 0 <= i < |r| ==> r[i].id == i + 1 && r[i] == c.rows[i + 1])
      && (c.nextId - 1 <= 100 ==> r == Rows(c))
  {
    DefaultPageOfValid(c);
  }

  /** A freshly created artwork is listed last. */
  lemma CreateArtworkListsLast(decode: Decoder, token: Token, art: ArtworkIn, c: Catalog)
    requires Valid(c)
    requires CreateArtwork(decode, token, art, c).result.Ok?
    ensures var out := CreateArtwork(decode, token, art, c);
      Rows(out.state) == Rows(c) + [out.result.value]
  {
    var out := CreateArtwork(decode, token, art, c);
    InsertAppends(c, out.result.value);
  }

  /** Marking an artwork sold changes that artwork's entry in the listing and nothing else. */
  lemma MarkSoldListsInPlace(decode: Decoder, token: Token, id: int, c: Catalog)
    requires Valid(c)
    requires MarkSold(decode, token, id, c).result.Ok?
    ensures var out := MarkSold(decode, token, id, c);
      && 0 <= id - 1 < |Rows(c)|
      && Rows(out.state) == Rows(c)[id - 1 := out.result.value]
  {
    var out := MarkSold(decode, token, id, c);
    UpdateInPlace(c, id, out.result.value);
  }

  /** `mark_sold` is not idempotent: once it succeeded, every later call on
      the same artwork fails, with 400 when the token is accepted. */
  lemma MarkSoldOnce(decode: Decoder, token: Token, decode': Decoder, token': Token, id: int, c: Catalog)
    requires MarkSold(decode, token, id, c).result.Ok?
    ensures var again := MarkSold(decode', token', id, MarkSold(decode, token, id, c).state);
      && again.result.Err?
      && (decode'(token').Some? ==> again.result.error == HttpError(BadRequest, "Artwork already sold"))
  {
  }

  lemma SoldMonotoneTrans(c: Catalog, c': Catalog, c'': Catalog)
    requires SoldMonotone(c, c') && SoldMonotone(c', c'')
    ensures SoldMonotone(c, c'')
  {
  }
}

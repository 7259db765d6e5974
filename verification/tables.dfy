/** A database table with an auto-incremented integer primary key: rows are
    never deleted, new rows get the next id, and an unordered `SELECT` with
    `OFFSET`/`LIMIT` reads the rows in id order. */
module Tables {
  import opened Results

  datatype Table<T> = Table(rows: map<int, T>, nextId: int)

  /** The ids in use are exactly 1 .. nextId-1. */
  ghost predicate Valid<T>(t: Table<T>)
  {
    && t.nextId >= 1
    && forall k :: k in t.rows <==> 1 <= k < t.nextId
  }

  function Empty<T>(): (t: Table<T>)
    ensures Valid(t)
    ensures |Rows(t)| == 0
  {
    Table(map[], 1)
  }

  /** Primary-key lookup (`query(...).filter(id == k).first()`). */
  function Get<T>(t: Table<T>, id: int): (r: Option<T>)
    ensures r.Some? <==> id in t.rows
    ensures r.Some? ==> r.value == t.rows[id]
  {
    if id in t.rows then Some(t.rows[id]) else None
  }

  /** `t'` agrees with `t` on every key other than `id`. */
  ghost predicate SameExcept<T>(t: Table<T>, t': Table<T>, id: int)
  {
    forall k :: k != id ==> Get(t', k) == Get(t, k)
  }

  /** `db.add(row); db.commit()`: the row is stored under the next id. */
  function Insert<T>(t: Table<T>, row: T): (t': Table<T>)
    ensures Get(t', t.nextId) == Some(row)
    ensures SameExcept(t, t', t.nextId)
    ensures t'.nextId == t.nextId + 1
    ensures Valid(t) ==> Valid(t') && t.nextId !in t.rows
  {
    Table(t.rows[t.nextId := row], t.nextId + 1)
  }

  /** Changing a stored row in place and committing. */
  function Update<T>(t: Table<T>, id: int, row: T): (t': Table<T>)
    requires id in t.rows
    ensures Get(t', id) == Some(row)
    ensures SameExcept(t, t', id)
    ensures t'.nextId == t.nextId
    ensures Valid(t) ==> Valid(t')
  {
    Table(t.rows[id := row], t.nextId)
  }

  /** The stored rows with ids in lo .. hi-1, in id order. */
  function RowsBetween<T>(m: map<int, T>, lo: int, hi: int): seq<T>
    decreases hi - lo
  {
    if lo >= hi then []
    else (if lo in m then [m[lo]] else []) + RowsBetween(m, lo + 1, hi)
  }

  /** All rows in id order: what an unordered `query(...).all()` returns. */
  function Rows<T>(t: Table<T>): seq<T>
  {
    RowsBetween(t.rows, 1, t.nextId)
  }

  lemma {:induction false} RowsBetweenDense<T>(m: map<int, T>, lo: int, hi: int)
    requires lo <= hi
    requires forall k :: lo <= k < hi ==> k in m
    ensures |RowsBetween(m, lo, hi)| == hi - lo
    ensures forall i :: 0 <= i < hi - lo ==> RowsBetween(m, lo, hi)[i] == m[lo + i]
    decreases hi - lo
  {
    if lo < hi {
      RowsBetweenDense(m, lo + 1, hi);
    }
  }

  /** In a valid table the listing holds row k at position k-1 and nothing else. */
  lemma RowsOfValid<T>(t: Table<T>)
    requires Valid(t)
    ensures |Rows(t)| == t.nextId - 1
    ensures forall i :: 0 <= i < |Rows(t)| ==> Rows(t)[i] == t.rows[i + 1]
  {
    RowsBetweenDense(t.rows, 1, t.nextId);
  }

  /** Every stored row appears in the listing, and only stored rows do. */
  lemma RowsAreStored<T>(t: Table<T>)
    requires Valid(t)
    ensures forall k :: k in t.rows ==> t.rows[k] in Rows(t)
    ensures forall x :: x in Rows(t) ==> exists k :: k in t.rows && t.rows[k] == x
  {
    RowsOfValid(t);
    forall k | k in t.rows
      ensures t.rows[k] in Rows(t)
    {
      assert Rows(t)[k - 1] == t.rows[k];
    }
    forall x | x in Rows(t)
      ensures exists k :: k in t.rows && t.rows[k] == x
    {
      var i :| 0 <= i < |Rows(t)| && Rows(t)[i] == x;
      assert t.rows[i + 1] == x;
    }
  }

  /** Inserting appends the new row at the end of the listing. */
  lemma InsertAppends<T>(t: Table<T>, row: T)
    requires Valid(t)
    ensures Rows(Insert(t, row)) == Rows(t) + [row]
  {
    var t' := Insert(t, row);
    RowsOfValid(t);
    RowsOfValid(t');
  }

  /** Updating replaces the row in its place in the listing. */
  lemma UpdateInPlace<T>(t: Table<T>, id: int, row: T)
    requires Valid(t) && id in t.rows
    ensures |Rows(t)| == t.nextId - 1
    ensures Rows(Update(t, id, row)) == Rows(t)[id - 1 := row]
  {
    RowsOfValid(t);
    RowsOfValid(Update(t, id, row));
  }

  /** The query defaults of the list endpoints: `skip: int = 0, limit: int = 100`. */
  const DefaultSkip: nat := 0
  const DefaultLimit: nat := 100

  /** A query parameter, or its default when the request leaves it out. */
  function OrDefault(v: Option<nat>, default: nat): (r: nat)
    ensures v.Some? ==> r == v.value
    ensures v.None? ==> r == default
  {
    match v
    case Some(x) => x
    case None => default
  }

  /** `.offset(skip).limit(limit)` applied to a listing. */
  function Page<T>(s: seq<T>, skip: nat, limit: nat): (r: seq<T>)
    ensures |r| <= limit
    ensures |r| == if skip >= |s| then 0 else Min(limit, |s| - skip)
    ensures forall i :: 0 <= i < |r| ==> r[i] == s[skip + i]
  {
    if skip >= |s| then [] else s[skip .. skip + Min(limit, |s| - skip)]
  }

  /** Consecutive pages tile the listing: reading `a` then `b` rows is
      reading `a + b` rows. */
  lemma PageConcat<T>(s: seq<T>, skip: nat, a: nat, b: nat)
    ensures Page(s, skip, a) + Page(s, skip + a, b) == Page(s, skip, a + b)
  {
  }

  /** A page of a valid table's listing is the run of rows with ids
      skip+1, skip+2, ... : at most `limit` of them, fewer only at the end. */
  lemma PageOfValid<T>(t: Table<T>, skip: nat, limit: nat)
    requires Valid(t)
    ensures var r := Page(Rows(t), skip, limit);
      && |r| == (if skip >= t.nextId - 1 then 0 else Min(limit, t.nextId - 1 - skip))
      && forall i :: 0 <= i < |r| ==> skip + i + 1 in t.rows && r[i] == t.rows[skip + i + 1]
  {
    RowsOfValid(t);
  }

  /** One page large enough returns the whole listing. */
  lemma PageWhole<T>(s: seq<T>, limit: nat)
    requires |s| <= limit
    ensures Page(s, 0, limit) == s
  {
  }

  /** A request that leaves out both parameters reads the first
      `DefaultLimit` rows: all of them when there are no more, and never
      one beyond the hundredth. */
  lemma DefaultPageOfValid<T>(t: Table<T>)
    requires Valid(t)
    ensures var r := Page(Rows(t), OrDefault(None, DefaultSkip), OrDefault(None, DefaultLimit));
      && |r| == Min(DefaultLimit, t.nextId - 1)
      && (forall i :: 0 <= i < |r| ==> i + 1 in t.rows && r[i] == t.rows[i + 1])
      && (t.nextId - 1 <= DefaultLimit ==> r == Rows(t))
  {
    PageOfValid(t, DefaultSkip, DefaultLimit);
    RowsOfValid(t);
    if t.nextId - 1 <= DefaultLimit {
      PageWhole(Rows(t), DefaultLimit);
    }
  }
}

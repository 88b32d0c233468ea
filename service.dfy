/** The three endpoints of the shortener with the HTTP layer removed, on a
    table object whose rows are updated in place. Each committed request is one
    atomic step; a 404 becomes `NotFound`, a duplicate key at the unique index
    becomes `Collision`. */
module Service {
  import opened Keys
  import opened Links
  import opened Table

  /** What `get_url_info` returns for a row. */
  datatype Info = Info(key: string, targetUrl: string, clicks: int, isActive: bool)

  /** What `create_url` returns (`URLInfo`): the stored fields and the two links. */
  datatype UrlInfo = UrlInfo(targetUrl: string, isActive: bool, clicks: int, url: string, adminUrl: string)

  datatype CreateResult = Created(info: UrlInfo) | Collision

  /** The `urls` table: rows by key, and the primary key the next insert gets. */
  class UrlTable {
    var rows: map<string, Record>
    var nextId: int

    /** The table as a value, for the specifications in module `Table`. */
    function Snapshot(): Store
      reads this
    {
      Store(rows, nextId)
    }

    ghost predicate Valid()
      reads this
    {
      WellFormed(Snapshot())
    }

    /** A table as the database holds it: any well-formed contents, including
        rows that were deactivated outside this program. */
    constructor (initial: Store)
      requires WellFormed(initial)
      ensures Valid() && Snapshot() == initial
    {
      rows := initial.rows;
      nextId := initial.nextId;
    }

    /** `create_url`: insert a new active row with no clicks under `key` (the
        token drawn by the generator) and return its fields and links. A key
        already present is refused by the unique index; the table is then
        unchanged and nothing is retried. */
    method CreateUrl(key: string, targetUrl: string, scheme: string, netloc: string)
      returns (r: CreateResult)
      requires Valid() && ValidKey(key)
      modifies this
      ensures Valid()
      ensures Snapshot() == Next(old(Snapshot()), Create(key, targetUrl))
      ensures r.Collision? <==> key in old(rows)
      ensures r.Created? ==>
        r.info == UrlInfo(targetUrl, true, 0, FullUrl(scheme, netloc, key), AdminUrl(scheme, netloc, key))
      ensures r.Created? ==> forall k :: k in old(rows) ==> old(rows)[k].id != rows[key].id
      ensures r.Created? ==> GetUrlInfo(key) == Found(Info(key, targetUrl, 0, true))
      ensures r.Created? ==> Target(Snapshot(), key) == Found(targetUrl)
    {
      if key in rows {
        r := Collision;
        return;
      }
      InsertPreservesWellFormed(Snapshot(), key, targetUrl);
      rows := rows[key := Record(nextId, key, targetUrl, true, 0)];
      nextId := nextId + 1;
      var stored := rows[key];
      r := Created(UrlInfo(stored.targetUrl, stored.isActive, stored.clicks,
                           FullUrl(scheme, netloc, stored.key), AdminUrl(scheme, netloc, stored.key)));
    }

    /** `redirect_to_url`: find the active row with this key, count the click
        and answer its target; a missing or inactive key leaves the table as it
        was and answers `NotFound`. */
    method RedirectToUrl(key: string) returns (r: Lookup<string>)
      requires Valid()
      modifies this
      ensures Valid()
      ensures r == Target(old(Snapshot()), key)
      ensures Snapshot() == Next(old(Snapshot()), Resolve(key))
    {
      if key in rows && rows[key].isActive {
        var row := rows[key];
        rows := rows[key := row.(clicks := row.clicks + 1)];
        r := Found(row.targetUrl);
      } else {
        r := NotFound;
      }
    }

    /** `get_url_info`: the fields of the row with this key, active or not;
        `NotFound` exactly when no row has the key. */
    function GetUrlInfo(key: string): (r: Lookup<Info>)
      reads this
      ensures r.NotFound? <==> key !in rows
      ensures r.Found? ==> r.value.targetUrl == rows[key].targetUrl && r.value.clicks == rows[key].clicks
                           && r.value.isActive == rows[key].isActive
      ensures r.Found? && Valid() ==> r.value.key == key
    {
      if key in rows then
        var row := rows[key];
        Found(Info(row.key, row.targetUrl, row.clicks, row.isActive))
      else
        NotFound
    }
  }
}

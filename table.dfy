/** The `urls` table as a value: a map from key to row plus the next primary
    key the database will hand out. The three endpoints are transitions on this
    value (`Next`), so that properties of whole sequences of requests (`Run`)
    can be stated and proved. The class `Service.UrlTable` implements the same
    transitions in place and is proved against these functions. */
module Table {
  import opened Keys

  /** One row of the `urls` table (`DBURL`). */
  datatype Record = Record(id: int, key: string, targetUrl: string, isActive: bool, clicks: int)

  /** The whole table. `ids` below `nextId` may be in use; `nextId` is the
      primary key the next insert receives (autoincrement). */
  datatype Store = Store(rows: map<string, Record>, nextId: int)

  /** The outcome of a lookup that may find nothing. */
  datatype Lookup<T> = Found(value: T) | NotFound

  /** A request to the core, with the transport removed. The key of `Create`
      stands in for the token the random generator drew. */
  datatype Op = Create(key: string, targetUrl: string) | Resolve(key: string) | Inspect(key: string)

  /** The store the application starts from when the table is empty. */
  const Empty: Store := Store(map[], 1)

  /** The freshly created table meets the invariants. */
  lemma EmptyWellFormed()
    ensures WellFormed(Empty)
  {
  }

  /** Row `k` agrees with its map key, has a valid key, a primary key that was
      handed out, and a counter that is not negative. */
  predicate RowOk(s: Store, k: string)
    requires k in s.rows
  {
    var row := s.rows[k];
    row.key == k && ValidKey(k) && 1 <= row.id < s.nextId && row.clicks >= 0
  }

  /** The table invariants: primary keys start at 1, every row is well formed
      and primary keys are pairwise distinct. Key uniqueness is the map itself,
      together with `row.key == k`. */
  predicate WellFormed(s: Store) {
    && s.nextId >= 1
    && (forall k :: k in s.rows ==> RowOk(s, k))
    && (forall k1, k2 :: k1 in s.rows && k2 in s.rows && k1 != k2 ==> s.rows[k1].id != s.rows[k2].id)
  }

  /** What `filter(DBURL.key == url_key, DBURL.is_active)` selects. */
  predicate Visible(s: Store, key: string) {
    key in s.rows && s.rows[key].isActive
  }

  /** No two rows carry the same `key` field: the unique index. */
  lemma KeysUnique(s: Store, k1: string, k2: string)
    requires WellFormed(s) && k1 in s.rows && k2 in s.rows && k1 != k2
    ensures s.rows[k1].key != s.rows[k2].key
  {
  }

  /** A successful insert: one new active row with no clicks and a fresh
      primary key; every existing row is untouched. */
  function Insert(s: Store, key: string, targetUrl: string): (t: Store)
    requires key !in s.rows
    ensures t.rows.Keys == s.rows.Keys + {key}
    ensures t.rows[key].key == key && t.rows[key].targetUrl == targetUrl
    ensures t.rows[key].isActive && t.rows[key].clicks == 0
    ensures forall k :: k in s.rows ==> t.rows[k] == s.rows[k]
    ensures WellFormed(s) ==> forall k :: k in s.rows ==> s.rows[k].id != t.rows[key].id
  {
    Store(s.rows[key := Record(s.nextId, key, targetUrl, true, 0)], s.nextId + 1)
  }

  /** An insert under a valid, unused key keeps the table invariants. */
  lemma InsertPreservesWellFormed(s: Store, key: string, targetUrl: string)
    requires WellFormed(s) && ValidKey(key) && key !in s.rows
    ensures WellFormed(Insert(s, key, targetUrl))
  {
  }

  /** `db_url.clicks += 1` on a visible row: that counter goes up by exactly
      one and nothing else in the table changes. */
  function Click(s: Store, key: string): (t: Store)
    requires Visible(s, key)
    ensures t.nextId == s.nextId && t.rows.Keys == s.rows.Keys
    ensures t.rows[key] == s.rows[key].(clicks := s.rows[key].clicks + 1)
    ensures forall k :: k in s.rows && k != key ==> t.rows[k] == s.rows[k]
    ensures WellFormed(s) ==> WellFormed(t)
  {
    var row := s.rows[key];
    Store(s.rows[key := row.(clicks := row.clicks + 1)], s.nextId)
  }

  /** What the redirect endpoint answers: the target of a visible row. This
      and `Next` are the reference definitions the class methods are proved
      equal to; their ensures spell out the cases for callers, and the lemmas
      below carry the properties. */
  function Target(s: Store, key: string): (r: Lookup<string>)
    ensures r.Found? <==> Visible(s, key)
    ensures r.Found? ==> r.value == s.rows[key].targetUrl
  {
    if key in s.rows && s.rows[key].isActive then Found(s.rows[key].targetUrl) else NotFound
  }

  /** The effect of one request on the table. A create whose key is taken
      fails at the unique index and leaves the table as it was (there is no
      retry); a resolve changes only a visible row; an inspect changes nothing. */
  function Next(s: Store, op: Op): (t: Store)
    ensures op.Create? && op.key in s.rows ==> t == s
    ensures op.Create? && op.key !in s.rows ==> t == Insert(s, op.key, op.targetUrl)
    ensures op.Resolve? && !Visible(s, op.key) ==> t == s
    ensures op.Resolve? && Visible(s, op.key) ==> t == Click(s, op.key)
    ensures op.Inspect? ==> t == s
  {
    match op
    case Create(key, targetUrl) =>
      if key in s.rows then s else Insert(s, key, targetUrl)
    case Resolve(key) =>
      if key in s.rows && s.rows[key].isActive then Click(s, key) else s
    case Inspect(_) => s
  }

  /** The table after a sequence of requests, applied one at a time. */
  function Run(s: Store, ops: seq<Op>): Store
    decreases |ops|
  {
    if ops == [] then s else Run(Next(s, ops[0]), ops[1..])
  }

  /** Creates carry keys the generator can produce. */
  predicate Admissible(op: Op) {
    op.Create? ==> ValidKey(op.key)
  }

  /** How a row may evolve: identity, key, target and flag stay; the counter
      does not go down; an inactive row does not change at all. */
  predicate Evolved(a: Record, b: Record) {
    && b.id == a.id && b.key == a.key && b.targetUrl == a.targetUrl
    && b.isActive == a.isActive && b.clicks >= a.clicks
    && (!a.isActive ==> b == a)
  }

  /** Every row of `s` is still in `t` and has only evolved, and every row
      added since carries an id at or above `s.nextId`, so (with `WellFormed`)
      no id of `s` is handed out again. */
  predicate Persists(s: Store, t: Store) {
    && s.nextId <= t.nextId
    && (forall k :: k in s.rows ==> k in t.rows && Evolved(s.rows[k], t.rows[k]))
    && (forall k :: k in t.rows && k !in s.rows ==> t.rows[k].id >= s.nextId)
  }

  lemma NextPreservesWellFormed(s: Store, op: Op)
    requires WellFormed(s) && Admissible(op)
    ensures WellFormed(Next(s, op))
  {
    if op.Create? && op.key !in s.rows {
      InsertPreservesWellFormed(s, op.key, op.targetUrl);
    }
  }

  lemma NextPersists(s: Store, op: Op)
    ensures Persists(s, Next(s, op))
  {
  }

  lemma PersistsTransitive(s: Store, t: Store, u: Store)
    requires Persists(s, t) && Persists(t, u)
    ensures Persists(s, u)
  {
  }

  /** Every sequence of requests keeps the table invariants. */
  lemma {:induction false} RunPreservesWellFormed(s: Store, ops: seq<Op>)
    requires WellFormed(s)
    requires forall i :: 0 <= i < |ops| ==> Admissible(ops[i])
    ensures WellFormed(Run(s, ops))
    decreases |ops|
  {
    if ops != [] {
      NextPreservesWellFormed(s, ops[0]);
      assert forall i :: 0 <= i < |ops[1..]| ==> Admissible(ops[1..][i]) by {
        forall i | 0 <= i < |ops[1..]| ensures Admissible(ops[1..][i]) {
          assert ops[1..][i] == ops[i + 1];
        }
      }
      RunPreservesWellFormed(Next(s, ops[0]), ops[1..]);
    }
  }

  /** Over any sequence of requests no row disappears, no target, key, id or
      active flag changes, no counter decreases, and an inactive row is left
      exactly as it was. */
  lemma {:induction false} RunPersists(s: Store, ops: seq<Op>)
    ensures Persists(s, Run(s, ops))
    decreases |ops|
  {
    if ops != [] {
      var t := Next(s, ops[0]);
      NextPersists(s, ops[0]);
      RunPersists(t, ops[1..]);
      PersistsTransitive(s, t, Run(t, ops[1..]));
    }
  }

  /** Ids are never handed out twice: a row created by any sequence of
      requests has an id unlike that of every row that was already there. */
  lemma RunFreshIds(s: Store, ops: seq<Op>, old_k: string, new_k: string)
    requires WellFormed(s) && old_k in s.rows
    requires new_k in Run(s, ops).rows && new_k !in s.rows
    ensures Run(s, ops).rows[new_k].id != s.rows[old_k].id
  {
    RunPersists(s, ops);
    assert RowOk(s, old_k);
  }

  /** `n` copies of the same request. */
  function Repeat(op: Op, n: nat): (ops: seq<Op>)
    ensures |ops| == n && forall i :: 0 <= i < n ==> ops[i] == op
  {
    if n == 0 then [] else [op] + Repeat(op, n - 1)
  }

  /** Counter correctness: `n` resolves of an active key raise its counter by
      exactly `n` and change nothing else. */
  lemma {:induction false} ResolveRepeatedCounts(s: Store, key: string, n: nat)
    requires Visible(s, key)
    ensures Run(s, Repeat(Resolve(key), n))
            == Store(s.rows[key := s.rows[key].(clicks := s.rows[key].clicks + n)], s.nextId)
    decreases n
  {
    if n > 0 {
      var t := Click(s, key);
      assert Repeat(Resolve(key), n)[1..] == Repeat(Resolve(key), n - 1);
      ResolveRepeatedCounts(t, key, n - 1);
      assert t.rows[key := t.rows[key].(clicks := t.rows[key].clicks + (n - 1))]
             == s.rows[key := s.rows[key].(clicks := s.rows[key].clicks + n)];
    }
  }

  /** Deactivation visibility: any number of resolves of an inactive or
      missing key leave the table unchanged. */
  lemma {:induction false} ResolveRepeatedHidden(s: Store, key: string, n: nat)
    requires !Visible(s, key)
    ensures Run(s, Repeat(Resolve(key), n)) == s
    decreases n
  {
    if n > 0 {
      assert Repeat(Resolve(key), n)[1..] == Repeat(Resolve(key), n - 1);
      ResolveRepeatedHidden(s, key, n - 1);
    }
  }

  /** Round trip: after a successful create, resolving the key yields the
      target and the stored row is active with no clicks. */
  lemma CreateThenResolve(s: Store, key: string, targetUrl: string)
    requires key !in s.rows
    ensures Target(Next(s, Create(key, targetUrl)), key) == Found(targetUrl)
    ensures Next(s, Create(key, targetUrl)).rows[key].clicks == 0
  {
  }
}

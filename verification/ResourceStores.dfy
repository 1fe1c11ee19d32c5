/** The two resource stores behind the CalDAV handler: the map-of-maps store and the database table,
    and the proof that the table behaves as the map. */
module ResourceStores {
  import opened Text
  import opened EntityTags
  import opened FileTree
  import Lists

  function PutData(data: Data, user: string, path: string, content: Bytes): Data {
    data[user := RowsOf(data, user)[path := content]]
  }

  function DeleteData(data: Data, user: string, path: string): Data {
    if user in data then data[user := data[user] - {path}] else data
  }

  class MemoryResourceStore {
    var data: Data

    constructor ()
      ensures data == map[]
    {
      data := map[];
    }

    /** Go iterates a map in an arbitrary order; so does this loop. */
    method ListResources(user: string) returns (resources: seq<Resource>)
      ensures Listing(resources, RowsOf(data, user))
    {
      var rows := RowsOf(data, user);
      resources := [];
      var left := rows.Keys;
      while left != {}
        invariant left <= rows.Keys
        invariant Listing(resources, map p | p in rows.Keys - left :: rows[p])
        decreases left
      {
        var p :| p in left;
        ListingSnoc(resources, map q | q in rows.Keys - left :: rows[q], p, rows[p]);
        assert (map q | q in rows.Keys - left :: rows[q])[p := rows[p]] ==
          map q | q in rows.Keys - (left - {p}) :: rows[q];
        resources := resources + [Resource(p, rows[p])];
        left := left - {p};
      }
      assert rows == map p | p in rows.Keys - {} :: rows[p];
    }

    method GetResource(user: string, path: string) returns (content: Bytes, found: bool)
      ensures found <==> path in RowsOf(data, user)
      ensures content == if found then RowsOf(data, user)[path] else []
    {
      if user !in data || path !in data[user] {
        return [], false;
      }
      return data[user][path], true;
    }

    method PutResource(user: string, path: string, content: Bytes)
      modifies this
      ensures data == PutData(old(data), user, path, content)
    {
      if user !in data {
        data := data[user := map[]];
      }
      data := data[user := data[user][path := content]];
    }

    method DeleteResource(user: string, path: string)
      modifies this
      ensures data == DeleteData(old(data), user, path)
    {
      if user in data {
        data := data[user := data[user] - {path}];
      }
    }
  }

  lemma ListingSnoc(resources: seq<Resource>, rows: Rows, path: string, content: Bytes)
    requires Listing(resources, rows) && path !in rows
    ensures Listing(resources + [Resource(path, content)], rows[path := content])
  {
    var more, rows' := resources + [Resource(path, content)], rows[path := content];
    forall r | r in rows'
      ensures exists i :: 0 <= i < |more| && more[i].path == r
    {
      if r == path {
        assert more[|resources|].path == r;
      } else {
        var i :| 0 <= i < |resources| && resources[i].path == r;
        assert more[i].path == r;
      }
    }
  }

  // ----- the database table -----

  datatype Row = Row(id: nat, userKey: string, path: string, content: Bytes)

  predicate Keyed(row: Row, user: string, path: string) {
    row.userKey == user && row.path == path
  }

  /** Index of the first matching row in primary-key order, or the length of the table. */
  function FirstRow(table: seq<Row>, user: string, path: string): (k: nat)
    ensures k <= |table|
    ensures forall i :: 0 <= i < k ==> !Keyed(table[i], user, path)
    ensures k < |table| ==> Keyed(table[k], user, path)
  {
    Lists.FirstIndex(table, (row: Row) => Keyed(row, user, path))
  }

  function PutRow(table: seq<Row>, nextID: nat, user: string, path: string, content: Bytes): seq<Row> {
    var k := FirstRow(table, user, path);
    if k == |table| then table + [Row(nextID, user, path, content)] else table[k := table[k].(content := content)]
  }

  function DeleteRows(table: seq<Row>, user: string, path: string): seq<Row> {
    if table == [] then []
    else if Keyed(table[0], user, path) then DeleteRows(table[1..], user, path)
    else [table[0]] + DeleteRows(table[1..], user, path)
  }

  function ListRows(table: seq<Row>, user: string): seq<Resource> {
    if table == [] then []
    else
      var init := ListRows(table[..|table| - 1], user);
      var row := table[|table| - 1];
      if row.userKey == user then init + [Resource(row.path, row.content)] else init
  }

  /** Primary keys increase along the table, as insertion assigns them. */
  ghost predicate IDsAscend(table: seq<Row>, nextID: nat) {
    && (forall i, j :: 0 <= i < j < |table| ==> table[i].id < table[j].id)
    && (forall i :: 0 <= i < |table| ==> table[i].id < nextID)
  }

  /** The index on (user, path) is not unique; that no pair occurs twice is an invariant of the code. */
  ghost predicate UniqueKeys(table: seq<Row>) {
    forall i, j :: 0 <= i < j < |table| ==> !Keyed(table[j], table[i].userKey, table[i].path)
  }

  /** The database store. Each call may fail, and then changes nothing. `data` is the map the table stands
      for. */
  class CalDAVStore {
    var table: seq<Row>
    var nextID: nat
    ghost var data: Data

    ghost predicate Valid()
      reads this
    {
      IDsAscend(table, nextID) && Simulates(table, data)
    }

    constructor ()
      ensures Valid() && table == [] && data == map[]
    {
      table, nextID, data := [], 1, map[];
    }

    method ListResources(user: string, fails: bool) returns (resources: Option<seq<Resource>>)
      requires Valid()
      ensures resources == if fails then None else Some(ListRows(table, user))
      ensures resources.Some? ==> Listing(resources.value, RowsOf(data, user))
    {
      if fails {
        return None;
      }
      var listed: seq<Resource> := [];
      for i := 0 to |table|
        invariant listed == ListRows(table[..i], user)
      {
        assert table[..i + 1][..i] == table[..i];
        if table[i].userKey == user {
          listed := listed + [Resource(table[i].path, table[i].content)];
        }
      }
      assert table[..|table|] == table;
      ListRowsListing(table, data, user);
      return Some(listed);
    }

    method GetResource(user: string, path: string, fails: bool) returns (ok: bool, content: Bytes, found: bool)
      requires Valid()
      ensures ok == !fails
      ensures found <==> ok && path in RowsOf(data, user)
      ensures content == if found then RowsOf(data, user)[path] else []
    {
      if fails {
        return false, [], false;
      }
      FirstRowStands(table, data, user, path);
      var k := FirstRow(table, user, path);
      if k == |table| {
        return true, [], false;
      }
      return true, table[k].content, true;
    }

    /** Query, then create or save: `Save` writes the row back under its primary key. */
    method PutResource(user: string, path: string, content: Bytes, queryFails: bool, writeFails: bool)
      returns (ok: bool)
      requires Valid()
      modifies this
      ensures Valid()
      ensures ok == (!queryFails && !writeFails)
      ensures table == if ok then PutRow(old(table), old(nextID), user, path, content) else old(table)
      ensures nextID == if ok then NextID(old(table), old(nextID), PutOp(user, path, content)) else old(nextID)
      ensures data == if ok then PutData(old(data), user, path, content) else old(data)
    {
      if queryFails {
        return false;
      }
      var k := FirstRow(table, user, path);
      if writeFails {
        return false;
      }
      PutSimulates(table, nextID, data, user, path, content);
      data := PutData(data, user, path, content);
      if k == |table| {
        table, nextID := table + [Row(nextID, user, path, content)], nextID + 1;
        return true;
      }
      var row := table[k].(content := content);
      table := table[k := row];
      return true;
    }

    method DeleteResource(user: string, path: string, fails: bool) returns (ok: bool)
      requires Valid()
      modifies this
      ensures Valid()
      ensures ok == !fails && nextID == old(nextID)
      ensures table == if ok then DeleteRows(old(table), user, path) else old(table)
      ensures data == if ok then DeleteData(old(data), user, path) else old(data)
    {
      if fails {
        return false;
      }
      DeleteRowsAscend(table, nextID, user, path);
      DeleteSimulates(table, data, user, path);
      table := DeleteRows(table, user, path);
      data := DeleteData(data, user, path);
      return true;
    }
  }

  lemma {:induction false} DeleteRowsIn(table: seq<Row>, user: string, path: string)
    ensures forall row :: row in DeleteRows(table, user, path) <==> row in table && !Keyed(row, user, path)
  {
    if table != [] {
      DeleteRowsIn(table[1..], user, path);
      assert table == [table[0]] + table[1..];
    }
  }

  lemma {:induction false} DeleteRowsAscend(table: seq<Row>, nextID: nat, user: string, path: string)
    requires IDsAscend(table, nextID)
    ensures IDsAscend(DeleteRows(table, user, path), nextID)
  {
    if table != [] {
      DeleteRowsAscend(table[1..], nextID, user, path);
      DeleteRowsIn(table[1..], user, path);
      var rest := DeleteRows(table[1..], user, path);
      forall i | 0 <= i < |rest|
        ensures table[0].id < rest[i].id
      {
        assert rest[i] in table[1..];
      }
    }
  }

  // ----- the table simulates the map -----

  ghost predicate Holds(table: seq<Row>, user: string, path: string, content: Bytes) {
    exists i :: 0 <= i < |table| && table[i].userKey == user && table[i].path == path && table[i].content == content
  }

  /** Same contents under the same keys, each key once. */
  ghost predicate Simulates(table: seq<Row>, data: Data) {
    && UniqueKeys(table)
    && (forall u, p, c :: Holds(table, u, p, c) <==> p in RowsOf(data, u) && RowsOf(data, u)[p] == c)
  }

  lemma PutSimulates(table: seq<Row>, nextID: nat, data: Data, user: string, path: string, content: Bytes)
    requires Simulates(table, data)
    ensures Simulates(PutRow(table, nextID, user, path, content), PutData(data, user, path, content))
  {
    var k := FirstRow(table, user, path);
    var after, data' := PutRow(table, nextID, user, path, content), PutData(data, user, path, content);
    forall u, p, c
      ensures Holds(after, u, p, c) <==> p in RowsOf(data', u) && RowsOf(data', u)[p] == c
    {
      if u == user && p == path {
        assert after[k] == after[k].(userKey := u, path := p, content := content);
        if Holds(after, u, p, c) {
          var i :| 0 <= i < |after| && after[i].userKey == u && after[i].path == p && after[i].content == c;
          assert i == k;
        }
      } else {
        assert Holds(after, u, p, c) <==> Holds(table, u, p, c) by {
          if i :| 0 <= i < |table| && table[i].userKey == u && table[i].path == p && table[i].content == c {
            assert after[i] == table[i];
          }
          if i :| 0 <= i < |after| && after[i].userKey == u && after[i].path == p && after[i].content == c {
            assert i != k && after[i] == table[i];
          }
        }
        assert p in RowsOf(data', u) <==> p in RowsOf(data, u);
      }
    }
  }

  lemma {:induction false} DeleteUnique(table: seq<Row>, user: string, path: string)
    requires UniqueKeys(table)
    ensures UniqueKeys(DeleteRows(table, user, path))
  {
    if table != [] {
      DeleteUnique(table[1..], user, path);
      DeleteRowsIn(table[1..], user, path);
      var rest := DeleteRows(table[1..], user, path);
      forall j | 0 <= j < |rest|
        ensures !Keyed(rest[j], table[0].userKey, table[0].path)
      {
        assert rest[j] in table[1..];
      }
    }
  }

  lemma HoldsIn(table: seq<Row>, u: string, p: string, c: Bytes)
    ensures Holds(table, u, p, c) <==>
            exists row :: row in table && row.userKey == u && row.path == p && row.content == c
  {
    if Holds(table, u, p, c) {
      var i :| 0 <= i < |table| && table[i].userKey == u && table[i].path == p && table[i].content == c;
      assert table[i] in table;
    }
  }

  lemma DeleteSimulates(table: seq<Row>, data: Data, user: string, path: string)
    requires Simulates(table, data)
    ensures Simulates(DeleteRows(table, user, path), DeleteData(data, user, path))
  {
    var after, data' := DeleteRows(table, user, path), DeleteData(data, user, path);
    DeleteUnique(table, user, path);
    DeleteRowsIn(table, user, path);
    forall u, p, c
      ensures Holds(after, u, p, c) <==> p in RowsOf(data', u) && RowsOf(data', u)[p] == c
    {
      HoldsIn(table, u, p, c);
      HoldsIn(after, u, p, c);
      assert Holds(after, u, p, c) <==> Holds(table, u, p, c) && !(u == user && p == path);
      assert p in RowsOf(data', u) <==> p in RowsOf(data, u) && !(u == user && p == path);
    }
  }

  lemma {:induction false} ListRowsIn(table: seq<Row>, user: string)
    ensures forall r :: r in ListRows(table, user) <==> Holds(table, user, r.path, r.content)
  {
    if table != [] {
      var n := |table| - 1;
      ListRowsIn(table[..n], user);
      forall r: Resource
        ensures r in ListRows(table, user) <==> Holds(table, user, r.path, r.content)
      {
        HoldsIn(table, user, r.path, r.content);
        HoldsIn(table[..n], user, r.path, r.content);
        assert table == table[..n] + [table[n]];
      }
    }
  }

  ghost predicate DistinctPaths(listed: seq<Resource>) {
    forall i, j :: 0 <= i < j < |listed| ==> listed[i].path != listed[j].path
  }

  /** No path is listed twice. */
  lemma {:induction false} ListRowsUnique(table: seq<Row>, user: string)
    requires UniqueKeys(table)
    ensures DistinctPaths(ListRows(table, user))
  {
    if table != [] {
      var n := |table| - 1;
      ListRowsUnique(table[..n], user);
      ListRowsIn(table[..n], user);
      var listed := ListRows(table[..n], user);
      if table[n].userKey == user {
        forall i | 0 <= i < |listed|
          ensures listed[i].path != table[n].path
        {
          assert listed[i] in listed && Holds(table[..n], user, listed[i].path, listed[i].content);
          var k :| 0 <= k < n && table[..n][k].userKey == user && table[..n][k].path == listed[i].path;
          assert !Keyed(table[n], table[k].userKey, table[k].path);
        }
      }
    }
  }

  /** What the table lists is a listing of the rows it stands for. */
  lemma ListRowsListing(table: seq<Row>, data: Data, user: string)
    requires Simulates(table, data)
    ensures Listing(ListRows(table, user), RowsOf(data, user))
  {
    var listed, rows := ListRows(table, user), RowsOf(data, user);
    ListRowsUnique(table, user);
    ListRowsIn(table, user);
    forall i | 0 <= i < |listed|
      ensures listed[i].path in rows && rows[listed[i].path] == listed[i].content
    {
      assert listed[i] in listed;
      assert Holds(table, user, listed[i].path, listed[i].content);
    }
    forall r | r in rows
      ensures exists i :: 0 <= i < |listed| && listed[i].path == r
    {
      assert Holds(table, user, r, rows[r]);
      assert Resource(r, rows[r]) in listed;
    }
  }

  /** The first matching row holds what the map holds under the key. */
  lemma FirstRowStands(table: seq<Row>, data: Data, user: string, path: string)
    requires Simulates(table, data)
    ensures var k := FirstRow(table, user, path);
      && (k < |table| <==> path in RowsOf(data, user))
      && (k < |table| ==> table[k].content == RowsOf(data, user)[path])
  {
    var k := FirstRow(table, user, path);
    if path in RowsOf(data, user) {
      assert Holds(table, user, path, RowsOf(data, user)[path]);
    }
    if k < |table| {
      assert Holds(table, user, path, table[k].content);
    }
  }

  lemma {:induction false} DistinctMultiset<T>(xs: seq<T>)
    requires NoDuplicates(xs)
    ensures multiset(xs) == multiset(set x | x in xs)
  {
    if xs != [] {
      var init, x := xs[..|xs| - 1], xs[|xs| - 1];
      DistinctMultiset(init);
      assert xs == init + [x];
      assert (set y | y in xs) == (set y | y in init) + {x};
    }
  }

  // ----- operation sequences -----

  datatype StoreOp =
    | ListOp(user: string)
    | GetOp(user: string, path: string)
    | PutOp(user: string, path: string, content: Bytes)
    | DeleteOp(user: string, path: string)

  /** What a caller sees of one operation; a listing is seen without its order. */
  datatype Observation = Listed(resources: multiset<Resource>) | Got(content: Option<Bytes>) | Done

  function ObserveRows(table: seq<Row>, op: StoreOp): Observation {
    match op
    case ListOp(u) => Listed(multiset(ListRows(table, u)))
    case GetOp(u, p) =>
      var k := FirstRow(table, u, p);
      Got(if k < |table| then Some(table[k].content) else None)
    case _ => Done
  }

  function ObserveData(data: Data, op: StoreOp): Observation {
    match op
    case ListOp(u) => Listed(multiset(set p | p in RowsOf(data, u) :: Resource(p, RowsOf(data, u)[p])))
    case GetOp(u, p) => Got(if p in RowsOf(data, u) then Some(RowsOf(data, u)[p]) else None)
    case _ => Done
  }

  function ApplyRows(table: seq<Row>, nextID: nat, op: StoreOp): seq<Row> {
    match op
    case PutOp(u, p, c) => PutRow(table, nextID, u, p, c)
    case DeleteOp(u, p) => DeleteRows(table, u, p)
    case _ => table
  }

  function ApplyData(data: Data, op: StoreOp): Data {
    match op
    case PutOp(u, p, c) => PutData(data, u, p, c)
    case DeleteOp(u, p) => DeleteData(data, u, p)
    case _ => data
  }

  function NextID(table: seq<Row>, nextID: nat, op: StoreOp): nat {
    if op.PutOp? && FirstRow(table, op.user, op.path) == |table| then nextID + 1 else nextID
  }

  function RunRows(table: seq<Row>, nextID: nat, ops: seq<StoreOp>): seq<Observation>
    decreases |ops|
  {
    if ops == [] then []
    else
      [ObserveRows(table, ops[0])]
      + RunRows(ApplyRows(table, nextID, ops[0]), NextID(table, nextID, ops[0]), ops[1..])
  }

  function RunData(data: Data, ops: seq<StoreOp>): seq<Observation>
    decreases |ops|
  {
    if ops == [] then [] else [ObserveData(data, ops[0])] + RunData(ApplyData(data, ops[0]), ops[1..])
  }

  lemma ObservationsAgree(table: seq<Row>, data: Data, op: StoreOp)
    requires Simulates(table, data)
    ensures ObserveRows(table, op) == ObserveData(data, op)
  {
    match op
    case ListOp(u) =>
      var listed := ListRows(table, u);
      ListRowsUnique(table, u);
      ListRowsIn(table, u);
      DistinctMultiset(listed);
      var rows := RowsOf(data, u);
      forall r: Resource
        ensures r in listed <==> r in set p | p in rows :: Resource(p, rows[p])
      {
        assert Holds(table, u, r.path, r.content) <==> r.path in rows && rows[r.path] == r.content;
      }
      assert (set r | r in listed) == set p | p in rows :: Resource(p, rows[p]);
    case GetOp(u, p) => FirstRowStands(table, data, u, p);
    case _ =>
  }

  /** Any sequence of operations is answered alike by the table and by the map, and at every point the
      table has at most one row per user and path. */
  lemma {:induction false} RowStoreRefinesMap(table: seq<Row>, nextID: nat, data: Data, ops: seq<StoreOp>)
    requires Simulates(table, data)
    ensures RunRows(table, nextID, ops) == RunData(data, ops)
    ensures AlwaysUnique(table, nextID, ops)
    decreases |ops|
  {
    if ops != [] {
      var op := ops[0];
      ObservationsAgree(table, data, op);
      match op {
        case PutOp(u, p, c) => PutSimulates(table, nextID, data, u, p, c);
        case DeleteOp(u, p) => DeleteSimulates(table, data, u, p);
        case _ =>
      }
      RowStoreRefinesMap(ApplyRows(table, nextID, op), NextID(table, nextID, op), ApplyData(data, op), ops[1..]);
    }
  }

  ghost predicate AlwaysUnique(table: seq<Row>, nextID: nat, ops: seq<StoreOp>)
    decreases |ops|
  {
    && UniqueKeys(table)
    && (ops == [] || AlwaysUnique(ApplyRows(table, nextID, ops[0]), NextID(table, nextID, ops[0]), ops[1..]))
  }

  /** From the empty stores on, no operation sequence tells the two apart. */
  lemma StoresIndistinguishable(ops: seq<StoreOp>)
    ensures RunRows([], 1, ops) == RunData(map[], ops) && AlwaysUnique([], 1, ops)
  {
    assert Simulates([], map[]);
    RowStoreRefinesMap([], 1, map[], ops);
  }

  // ----- the store the handler is given -----

  /** The two implementations of the handler's store interface. A call may fail, and then changes
      nothing; the memory store itself never fails. */
  datatype ResourceStore = InMemory(memory: MemoryResourceStore) | Database(database: CalDAVStore) {

    ghost function Repr(): set<object> {
      match this
      case InMemory(m) => {m}
      case Database(d) => {d}
    }

    ghost predicate Valid()
      reads Repr()
    {
      this.Database? ==> database.Valid()
    }

    /** The rows the store stands for. */
    ghost function Contents(): Data
      reads Repr()
    {
      match this
      case InMemory(m) => m.data
      case Database(d) => d.data
    }

    method ListResources(user: string, fails: bool) returns (resources: Option<seq<Resource>>)
      requires Valid()
      ensures resources.None? <==> fails
      ensures resources.Some? ==> Listing(resources.value, RowsOf(Contents(), user))
    {
      if fails {
        return None;
      }
      match this {
        case InMemory(m) =>
          var listed := m.ListResources(user);
          resources := Some(listed);
        case Database(d) => resources := d.ListResources(user, fails);
      }
    }

    method GetResource(user: string, path: string, fails: bool) returns (ok: bool, content: Bytes, found: bool)
      requires Valid()
      ensures ok == !fails
      ensures found <==> ok && path in RowsOf(Contents(), user)
      ensures content == if found then RowsOf(Contents(), user)[path] else []
    {
      if fails {
        return false, [], false;
      }
      match this {
        case InMemory(m) =>
          content, found := m.GetResource(user, path);
          ok := true;
        case Database(d) => ok, content, found := d.GetResource(user, path, fails);
      }
    }

    method PutResource(user: string, path: string, content: Bytes, fails: bool) returns (ok: bool)
      requires Valid()
      modifies Repr()
      ensures Valid() && ok == !fails
      ensures Contents() == if ok then PutData(old(Contents()), user, path, content) else old(Contents())
    {
      if fails {
        return false;
      }
      match this {
        case InMemory(m) =>
          m.PutResource(user, path, content);
          ok := true;
        case Database(d) => ok := d.PutResource(user, path, content, false, fails);
      }
    }

    method DeleteResource(user: string, path: string, fails: bool) returns (ok: bool)
      requires Valid()
      modifies Repr()
      ensures Valid() && ok == !fails
      ensures Contents() == if ok then DeleteData(old(Contents()), user, path) else old(Contents())
    {
      if fails {
        return false;
      }
      match this {
        case InMemory(m) =>
          m.DeleteResource(user, path);
          ok := true;
        case Database(d) => ok := d.DeleteResource(user, path, fails);
      }
    }
  }
}

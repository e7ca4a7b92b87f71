/**
  The device repository of the data-access package over an abstract store:
  the stored rows in insertion order. Every operation takes the rows and
  returns what it answers together with the rows afterwards. The clock
  reading `now` and a storage failure (`fault`) are inputs.
 */
module DeviceRepo {
  import opened Common
  import opened DeviceModel
  import opened Store

  /** The row test of `WHERE id = ?`. */
  function IdIs(id: UUID): Device -> bool
  {
    (x: Device) => x.id == id
  }

  /** The rows a `WHERE id = ?` delete leaves behind. */
  function IdIsNot(id: UUID): Device -> bool
  {
    (x: Device) => x.id != id
  }

  /** The row test of `WHERE <filter>` for a struct filter. */
  function Matching(filter: Device): Device -> bool
  {
    (x: Device) => Matches(filter, x)
  }

  // ---------------------------------------------------------------- Get

  /**
    Fetches the row with the given identity. No matching row is the
    `RecordNotFound` error, never a device.
   */
  function Get(rows: seq<Device>, id: UUID, fault: bool): (r: Result<Device, DbError>)
    ensures fault ==> r == Err(EngineFailure)
    ensures !fault && (forall x :: x in rows ==> x.id != id) ==> r == Err(RecordNotFound)
    ensures !fault && (exists x :: x in rows && x.id == id) ==> r.Ok?
    ensures r.Ok? ==> r.value in rows && r.value.id == id
  {
    if fault then Err(EngineFailure)
    else
      var found := Select(rows, IdIs(id));
      if found == [] then Err(RecordNotFound)
      else assert found[0] in found; Ok(found[0])
  }

  /** Under the primary-key constraint, Get returns exactly the stored row with that identity. */
  lemma GetStored(rows: seq<Device>, i: int)
    requires UniqueIds(rows) && 0 <= i < |rows|
    ensures Get(rows, rows[i].id, false) == Ok(rows[i])
  {
    var r := Get(rows, rows[i].id, false);
    assert rows[i] in rows;
    var j :| 0 <= j < |rows| && rows[j] == r.value;
    assert j == i;
  }

  // ---------------------------------------------------------------- Create

  datatype CreateOutcome = CreateOutcome(result: Result<Device, DbError>, rows: seq<Device>)

  /**
    Stamps `CreateTime = now` on the new row, inserts it after the existing
    rows and returns the stored value. An identity already stored breaks the
    primary key and nothing is inserted.
   */
  function Create(rows: seq<Device>, d: Device, now: Int64, fault: bool): (o: CreateOutcome)
    ensures fault ==> o == CreateOutcome(Err(EngineFailure), rows)
    ensures !fault && (exists x :: x in rows && x.id == d.id) ==> o == CreateOutcome(Err(UniqueViolation), rows)
    ensures !fault && (forall x :: x in rows ==> x.id != d.id) ==> o.result.Ok?
    ensures o.result.Ok? ==> o.result.value == d.(createTime := now) && o.rows == rows + [o.result.value]
    ensures UniqueIds(rows) ==> UniqueIds(o.rows)
  {
    var stamped := d.(createTime := now);
    if fault then CreateOutcome(Err(EngineFailure), rows)
    else if Count(rows, IdIs(d.id)) != 0 then CreateOutcome(Err(UniqueViolation), rows)
    else
      var rows' := rows + [stamped];
      assert forall i :: 0 <= i < |rows| ==> rows[i] in rows;
      CreateOutcome(Ok(stamped), rows')
  }

  /** A created row is found again by Get. */
  lemma CreateThenGet(rows: seq<Device>, d: Device, now: Int64)
    requires UniqueIds(rows)
    requires forall x :: x in rows ==> x.id != d.id
    ensures var o := Create(rows, d, now, false);
      o.result.Ok? && Get(o.rows, d.id, false) == Ok(d.(createTime := now))
  {
    var o := Create(rows, d, now, false);
    GetStored(o.rows, |rows|);
  }

  // ---------------------------------------------------------------- Update

  /** What an update leaves behind. `patch` is the caller's value after the call. */
  datatype UpdateOutcome = UpdateOutcome(
    patch: Option<Device>,
    row: Option<Device>,
    affected: nat,
    err: Option<DbError>,
    rows: seq<Device>)

  /** A patch that carries the identity and nothing else. */
  predicate IsEmptyPatch(p: Device)
  {
    p == IdOnly(p.id)
  }

  /**
    The row a patch should produce, field by field: identity and creation
    time kept, each text field replaced only by a non-empty patch value, the
    modification time taken from the patch.
   */
  function Patched(row: Device, p: Device): Device
  {
    Device(
      row.id,
      if p.model != "" then p.model else row.model,
      if p.color != "" then p.color else row.color,
      if p.version != "" then p.version else row.version,
      row.createTime,
      p.updateTime)
  }

  /** Setting a patch's sparse update map on a row gives the row the patch should produce. */
  lemma ApplyUpdateMap(row: Device, p: Device)
    ensures Apply(row, UpdateMap(p)) == Patched(row, p)
  {
    var m := UpdateMap(p);
    var r := Apply(row, m);
    assert FieldValue(r, IdField) == FieldValue(row, IdField);
    assert FieldValue(r, CreateTimeField) == FieldValue(row, CreateTimeField);
    assert FieldValue(r, UpdateTimeField) == Int(p.updateTime);
    if p.model != "" {
      assert FieldValue(r, ModelField) == Text(p.model);
    } else {
      assert FieldValue(r, ModelField) == FieldValue(row, ModelField);
    }
    if p.color != "" {
      assert FieldValue(r, ColorField) == Text(p.color);
    } else {
      assert FieldValue(r, ColorField) == FieldValue(row, ColorField);
    }
    if p.version != "" {
      assert FieldValue(r, VersionField) == Text(p.version);
    } else {
      assert FieldValue(r, VersionField) == FieldValue(row, VersionField);
    }
  }

  /** The rows after `UPDATE … SET <m> WHERE id = <id>`. */
  function UpdateWhereId(rows: seq<Device>, id: UUID, m: map<string, Value>): (r: seq<Device>)
    ensures |r| == |rows|
    ensures forall i :: 0 <= i < |rows| ==> r[i] == if rows[i].id == id then Apply(rows[i], m) else rows[i]
  {
    seq(|rows|, i requires 0 <= i < |rows| => if rows[i].id == id then Apply(rows[i], m) else rows[i])
  }

  /**
    Partial update. A nil patch and a patch with only an identity are no-ops
    that write nothing. Otherwise the caller's patch gets `UpdateTime = now`,
    its sparse map is set on every row with the patch's identity, and the
    number of such rows is reported. A storage failure reports no row and no
    count.
   */
  function Update(rows: seq<Device>, d: Option<Device>, now: Int64, fault: bool): (o: UpdateOutcome)
    ensures d.None? ==> o == UpdateOutcome(None, None, 0, None, rows)
    ensures d.Some? && IsEmptyPatch(d.value) ==> o == UpdateOutcome(d, None, 0, None, rows)
    ensures d.Some? && !IsEmptyPatch(d.value) ==> o.patch == Some(d.value.(updateTime := now))
    ensures d.Some? && !IsEmptyPatch(d.value) && fault ==>
              o.row.None? && o.affected == 0 && o.err == Some(EngineFailure) && o.rows == rows
    ensures d.Some? && !IsEmptyPatch(d.value) && !fault ==>
              && o.err.None? && o.row.Some?
              && o.affected == Count(rows, IdIs(d.value.id))
              && |o.rows| == |rows|
              && forall i :: 0 <= i < |rows| ==>
                   o.rows[i] == if rows[i].id == d.value.id then Patched(rows[i], o.patch.value) else rows[i]
  {
    match d
    case None => UpdateOutcome(None, None, 0, None, rows)
    case Some(p) =>
      if IsEmptyPatch(p) then UpdateOutcome(d, None, 0, None, rows)
      else
        var stamped := p.(updateTime := now);
        var umap := UpdateMap(stamped);
        if fault then UpdateOutcome(Some(stamped), None, 0, Some(EngineFailure), rows)
        else
          var rows' := UpdateWhereId(rows, p.id, umap);
          assert forall i :: 0 <= i < |rows| && rows[i].id == p.id ==> rows'[i] == Patched(rows[i], stamped) by {
            forall i | 0 <= i < |rows| && rows[i].id == p.id
              ensures rows'[i] == Patched(rows[i], stamped)
            {
              ApplyUpdateMap(rows[i], stamped);
            }
          }
          UpdateOutcome(Some(stamped), Some(Apply(Zero, umap)), Count(rows, IdIs(p.id)), None, rows')
  }

  /** No update changes any row's identity or creation time, and the primary key still holds. */
  lemma UpdateKeepsIdentity(rows: seq<Device>, d: Option<Device>, now: Int64, fault: bool)
    ensures var o := Update(rows, d, now, fault);
      |o.rows| == |rows| &&
      forall i :: 0 <= i < |rows| ==> o.rows[i].id == rows[i].id && o.rows[i].createTime == rows[i].createTime
    ensures UniqueIds(rows) ==> UniqueIds(Update(rows, d, now, fault).rows)
  {
  }

  /**
    A patch that sets every text field and carries the stored creation time
    leaves the stored row equal to the caller's stamped patch.
   */
  lemma UpdateFullPatch(rows: seq<Device>, p: Device, now: Int64, i: int)
    requires 0 <= i < |rows| && rows[i].id == p.id
    requires p.model != "" && p.color != "" && p.version != "" && p.createTime == rows[i].createTime
    ensures var o := Update(rows, Some(p), now, false);
      o.patch == Some(p.(updateTime := now)) && o.rows[i] == o.patch.value
  {
  }

  /** A successful update stamps the matched rows with `now` and reports at least one row. */
  lemma UpdateStampsMatches(rows: seq<Device>, p: Device, now: Int64, i: int)
    requires 0 <= i < |rows| && rows[i].id == p.id && !IsEmptyPatch(p)
    ensures var o := Update(rows, Some(p), now, false);
      o.rows[i].updateTime == now && o.affected >= 1
  {
    assert rows[i] in rows;
  }

  // ---------------------------------------------------------------- Delete

  datatype DeleteOutcome = DeleteOutcome(affected: nat, err: Option<DbError>, rows: seq<Device>)

  /**
    Removes every row with the identity and reports how many there were.
    Removing nothing is not an error.
   */
  function Delete(rows: seq<Device>, id: UUID, fault: bool): (o: DeleteOutcome)
    ensures fault ==> o == DeleteOutcome(0, Some(EngineFailure), rows)
    ensures !fault ==> o.err.None? && o.affected == Count(rows, IdIs(id))
    ensures !fault ==> forall x :: x in o.rows <==> x in rows && x.id != id
    ensures !fault ==> |o.rows| + o.affected == |rows|
    ensures !fault ==> IsSubsequence(o.rows, rows)
  {
    if fault then DeleteOutcome(0, Some(EngineFailure), rows)
    else
      SelectComplement(rows, IdIsNot(id), IdIs(id));
      DeleteOutcome(Count(rows, IdIs(id)), None, Select(rows, IdIsNot(id)))
  }

  /** Deleting from a concatenation deletes from each part and keeps the parts in order. */
  lemma DeleteAppend(a: seq<Device>, b: seq<Device>, id: UUID)
    ensures Delete(a + b, id, false).rows == Delete(a, id, false).rows + Delete(b, id, false).rows
  {
    SelectAppend(a, b, IdIsNot(id));
  }

  /** Under the primary-key constraint a delete removes at most one row. */
  lemma {:induction false} CountUniqueId(rows: seq<Device>, id: UUID)
    requires UniqueIds(rows)
    ensures Count(rows, IdIs(id)) <= 1
  {
    if rows != [] {
      assert UniqueIds(rows[1..]);
      CountUniqueId(rows[1..], id);
      if rows[0].id == id {
        assert forall x :: x in rows[1..] ==> x.id != id;
      }
    }
  }

  // ---------------------------------------------------------------- List and Find

  /** Every row that matches the filter, in stored order. */
  function List(rows: seq<Device>, filter: Device, fault: bool): (r: Result<seq<Device>, DbError>)
    ensures fault <==> r.Err?
    ensures r.Ok? ==> forall x :: x in r.value <==> x in rows && Matches(filter, x)
    ensures r.Ok? ==> IsSubsequence(r.value, rows) && |r.value| == Count(rows, Matching(filter))
  {
    if fault then Err(EngineFailure) else Ok(Select(rows, Matching(filter)))
  }

  /** Storing one more row extends the listing by that row exactly when it matches, at the end. */
  lemma ListAppend(rows: seq<Device>, filter: Device, d: Device)
    ensures List(rows + [d], filter, false).value
         == List(rows, filter, false).value + (if Matches(filter, d) then [d] else [])
  {
    SelectAppend(rows, [d], Matching(filter));
    SelectOne(d, Matching(filter));
  }

  /** The empty filter constrains nothing: List returns every row, in stored order. */
  lemma ListAll(rows: seq<Device>)
    ensures List(rows, Zero, false) == Ok(rows)
  {
    forall x | x in rows
      ensures Matches(Zero, x)
    {
    }
    SelectAll(rows, Matching(Zero));
  }

  /**
    The matching rows, bounded by the page's limit and offset. A negative
    bound adds no clause: a negative offset skips nothing and a negative
    limit takes everything after the offset.
   */
  function Find(rows: seq<Device>, filter: Device, p: Page, fault: bool): (r: Result<seq<Device>, DbError>)
    ensures fault <==> r.Err?
    ensures r.Ok? ==> forall x :: x in r.value ==> x in rows && Matches(filter, x)
    ensures r.Ok? && p.limit >= 0 ==> |r.value| <= p.limit
    ensures r.Ok? && p.limit < 0 && p.offset < 0 ==> r == List(rows, filter, false)
    ensures r.Ok? ==>
              var all := List(rows, filter, false).value;
              forall i :: 0 <= i < |r.value| ==> Max(0, p.offset) + i < |all| && r.value[i] == all[Max(0, p.offset) + i]
    ensures r.Ok? ==>
              var rest := Max(0, |List(rows, filter, false).value| - Max(0, p.offset));
              |r.value| == if p.limit < 0 then rest else Min(p.limit, rest)
  {
    if fault then Err(EngineFailure)
    else
      var matches := Select(rows, Matching(filter));
      var page := Window(matches, p.limit, p.offset);
      assert forall x :: x in page ==> x in matches;
      Ok(page)
  }

  /** An offset at or past the number of matches yields an empty page, not an error. */
  lemma FindPastEnd(rows: seq<Device>, filter: Device, p: Page)
    requires List(rows, filter, false).Ok? && p.offset >= |List(rows, filter, false).value|
    ensures Find(rows, filter, p, false) == Ok([])
  {
  }

  // ---------------------------------------------------------------- Transactions

  /** A storage handle: the base connection, or a transaction begun on another handle. */
  datatype Handle = Base(name: nat) | Begun(outer: Handle)

  /** How many transactions a handle is nested in. */
  function Depth(h: Handle): nat
  {
    match h
    case Base(_) => 0
    case Begun(outer) => 1 + Depth(outer)
  }

  /**
    The repository object: `copy` keeps the handle it was built with and is
    never reassigned; `db` is the handle operations currently run on.
   */
  class Repo {
    const copy: Handle
    var db: Handle

    constructor(h: Handle)
      ensures Handles(copy, db) == NewDeviceRepo(h)
    {
      copy := h;
      db := h;
    }

    /** Begins a transaction on the current handle and runs on it from now on. */
    method NewTransactions()
      modifies this
      ensures Handles(copy, db) == Step(old(Handles(copy, db)), Call.NewTransactions)
    {
      db := Begun(db);
    }

    /** Rolls back the current handle and returns to the original one. */
    method TransactionsRollback()
      modifies this
      ensures Handles(copy, db) == Step(old(Handles(copy, db)), Call.TransactionsRollback)
    {
      db := copy;
    }

    /** Commits the current handle and returns to the original one. */
    method TransactionsCommit()
      modifies this
      ensures Handles(copy, db) == Step(old(Handles(copy, db)), Call.TransactionsCommit)
    {
      db := copy;
    }
  }

  /** The two handle fields of a repository, as a value. */
  datatype Handles = Handles(copy: Handle, db: Handle)

  /** The operations of the `Repository` interface; none of them touches a handle field. */
  datatype InterfaceOp = GetOp | CreateOp | UpdateOp | DeleteOp | ListOp | FindOp | QueryOp

  /** A call on the concrete repository: an interface operation, or one of the transaction calls only it has. */
  datatype Call = Interface(op: InterfaceOp) | NewTransactions | TransactionsRollback | TransactionsCommit

  /** A freshly built repository runs on the handle it was given and remembers it. */
  function NewDeviceRepo(h: Handle): Handles
  {
    Handles(h, h)
  }

  /** The handle fields after one call. */
  function Step(s: Handles, c: Call): Handles
  {
    match c
    case Interface(_) => s
    case NewTransactions => s.(db := Begun(s.db))
    case TransactionsRollback => s.(db := s.copy)
    case TransactionsCommit => s.(db := s.copy)
  }

  /**
    The handle fields after a sequence of calls. `copy` never changes; a
    sequence that ends with a commit or a rollback ends on `copy`; a sequence
    of interface operations only changes nothing.
   */
  function Run(s: Handles, calls: seq<Call>): (r: Handles)
    ensures r.copy == s.copy
    ensures calls != [] && calls[|calls| - 1] in {TransactionsCommit, TransactionsRollback} ==> r.db == s.copy
    ensures (forall i :: 0 <= i < |calls| ==> calls[i].Interface?) ==> r == s
    decreases |calls|
  {
    if calls == [] then s else Run(Step(s, calls[0]), calls[1..])
  }

  /**
    Whatever is called on a freshly built repository, it keeps the handle it
    was built with, and a commit or rollback as the last call puts it back on
    that handle.
   */
  lemma NewRepoRestores(h: Handle, calls: seq<Call>)
    ensures Run(NewDeviceRepo(h), calls).copy == h
    ensures calls != [] && calls[|calls| - 1] in {TransactionsCommit, TransactionsRollback} ==>
              Run(NewDeviceRepo(h), calls).db == h
    ensures (forall i :: 0 <= i < |calls| ==> calls[i].Interface?) ==> Run(NewDeviceRepo(h), calls) == Handles(h, h)
  {
  }

  /** `k` nested NewTransactions calls on a fresh repository. */
  function Begins(k: nat): (calls: seq<Call>)
    ensures |calls| == k && forall i :: 0 <= i < k ==> calls[i] == NewTransactions
  {
    seq(k, i => NewTransactions)
  }

  /**
    Each NewTransactions nests one level deeper, and one commit or rollback
    returns to the original handle however deep the nesting was.
   */
  lemma {:induction false} NestedThenRestore(s: Handles, k: nat, last: Call)
    requires s.db == s.copy
    requires last in {TransactionsCommit, TransactionsRollback}
    ensures Depth(Run(s, Begins(k)).db) == k + Depth(s.copy)
    ensures Run(s, Begins(k) + [last]) == s
  {
    NestedDepth(s, k);
    assert (Begins(k) + [last])[k] == last;
  }

  lemma {:induction false} NestedDepth(s: Handles, k: nat)
    ensures Depth(Run(s, Begins(k)).db) == k + Depth(s.db)
    decreases k
  {
    if k > 0 {
      assert Begins(k)[1..] == Begins(k - 1);
      NestedDepth(Step(s, NewTransactions), k - 1);
    }
  }
}

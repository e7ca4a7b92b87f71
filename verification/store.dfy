/**
  The storage collaborator behind the repository, reduced to what the
  repository relies on: rows kept in insertion order, an update statement
  that sets the columns a map names, filter-by-example selection, and
  limit/offset bounds. Connections, SQL text and isolation are not modelled.
 */
module Store {
  import opened Common
  import opened DeviceModel

  /** Why the engine refused a statement. */
  datatype DbError =
    | RecordNotFound   // a single-row fetch matched nothing
    | UniqueViolation  // an insert repeated an existing primary key
    | EngineFailure    // connectivity or any other failure the engine reports

  /** The primary-key constraint on `id`: no two stored rows share an identity. */
  ghost predicate UniqueIds(rows: seq<Device>)
  {
    forall i, j :: 0 <= i < j < |rows| ==> rows[i].id != rows[j].id
  }

  /** Whether a map entry has the kind of value the field's column stores. */
  predicate FitsField(v: Value, f: Field)
  {
    v.Text? == IsTextField(f)
  }

  function TextColumn(m: map<string, Value>, column: string, current: string): string
  {
    if column in m && m[column].Text? then m[column].s else current
  }

  function IntColumn(m: map<string, Value>, column: string, current: Int64): Int64
  {
    if column in m && m[column].Int? then m[column].n else current
  }

  /**
    One row after `UPDATE … SET <m>`: a column the map names takes the map's
    value, every other column keeps its value.
   */
  function Apply(row: Device, m: map<string, Value>): (r: Device)
    ensures forall f :: ColumnName(f) !in m ==> FieldValue(r, f) == FieldValue(row, f)
    ensures forall f :: ColumnName(f) in m && FitsField(m[ColumnName(f)], f) ==>
              FieldValue(r, f) == m[ColumnName(f)]
  {
    Device(
      UUID(TextColumn(m, "id", row.id.raw)),
      TextColumn(m, "model", row.model),
      TextColumn(m, "color", row.color),
      TextColumn(m, "version", row.version),
      IntColumn(m, "create_time", row.createTime),
      IntColumn(m, "update_time", row.updateTime))
  }

  /**
    Filter-by-example: every non-zero field of `filter` is an equality
    constraint on the row; zero fields do not constrain.
   */
  predicate Matches(filter: Device, row: Device)
  {
    forall f :: f in Fields ==> IsZero(FieldValue(filter, f)) || FieldValue(filter, f) == FieldValue(row, f)
  }

  /** The number of rows that satisfy `keep`. */
  function Count(rows: seq<Device>, keep: Device -> bool): (n: nat)
    ensures n <= |rows|
    ensures n == 0 <==> forall x :: x in rows ==> !keep(x)
  {
    if rows == [] then 0
    else (if keep(rows[0]) then 1 else 0) + Count(rows[1..], keep)
  }

  /**
    `r` can be obtained from `s` by deleting elements: its elements appear
    in `s` in the same relative order.
   */
  ghost predicate IsSubsequence(r: seq<Device>, s: seq<Device>)
    decreases |s|
  {
    || r == []
    || (s != [] && ((r[0] == s[0] && IsSubsequence(r[1..], s[1..])) || IsSubsequence(r, s[1..])))
  }

  /**
    The rows that satisfy `keep`, in their stored order: a subsequence of the
    table made of kept rows only, with one entry per kept row, which leaves
    exactly the kept positions in their order.
   */
  function Select(rows: seq<Device>, keep: Device -> bool): (r: seq<Device>)
    ensures |r| == Count(rows, keep)
    ensures forall x :: x in r <==> x in rows && keep(x)
    ensures IsSubsequence(r, rows)
  {
    if rows == [] then []
    else if keep(rows[0]) then [rows[0]] + Select(rows[1..], keep)
    else Select(rows[1..], keep)
  }

  /** Every row is kept when every row satisfies `keep`: the stored order is the result order. */
  lemma {:induction false} SelectAll(rows: seq<Device>, keep: Device -> bool)
    requires forall x :: x in rows ==> keep(x)
    ensures Select(rows, keep) == rows
  {
    if rows != [] {
      assert keep(rows[0]) by {
        assert rows[0] in rows;
      }
      assert forall x :: x in rows[1..] ==> x in rows;
      SelectAll(rows[1..], keep);
      assert Select(rows, keep) == [rows[0]] + Select(rows[1..], keep);
      assert rows == [rows[0]] + rows[1..];
    }
  }

  /** Selection distributes over concatenation: rows added later come later in the selection. */
  lemma {:induction false} SelectAppend(a: seq<Device>, b: seq<Device>, keep: Device -> bool)
    ensures Select(a + b, keep) == Select(a, keep) + Select(b, keep)
  {
    if a != [] {
      assert (a + b)[0] == a[0];
      assert (a + b)[1..] == a[1..] + b;
      SelectAppend(a[1..], b, keep);
    } else {
      assert a + b == b;
    }
  }

  /** A single row is selected exactly when it passes the test. */
  lemma SelectOne(x: Device, keep: Device -> bool)
    ensures Select([x], keep) == if keep(x) then [x] else []
  {
    assert [x][1..] == [];
  }

  /** The selected rows and the rows the complementary test selects together account for every row. */
  lemma {:induction false} SelectComplement(rows: seq<Device>, keep: Device -> bool, drop: Device -> bool)
    requires forall x :: drop(x) == !keep(x)
    ensures |Select(rows, keep)| + Count(rows, drop) == |rows|
  {
    if rows != [] {
      SelectComplement(rows[1..], keep, drop);
    }
  }

  /** A limit/offset page of a query's rows. */
  datatype Page = Page(limit: int, offset: int)

  /**
    `LIMIT limit OFFSET offset` over an ordered result. A negative bound adds
    no clause; a limit of 0 returns nothing.
   */
  function Window(s: seq<Device>, limit: int, offset: int): (r: seq<Device>)
    ensures limit >= 0 ==> |r| <= limit
    ensures forall i :: 0 <= i < |r| ==> Max(0, offset) + i < |s| && r[i] == s[Max(0, offset) + i]
    ensures |r| == if limit < 0 then Max(0, |s| - Max(0, offset)) else Min(limit, Max(0, |s| - Max(0, offset)))
    ensures offset < 0 && limit < 0 ==> r == s
  {
    var skipped := if offset < 0 then s else if offset >= |s| then [] else s[offset..];
    assert offset < 0 ==> Max(0, offset) == 0 && skipped == s;
    assert offset >= |s| ==> skipped == [];
    assert 0 <= offset < |s| ==> Max(0, offset) == offset && skipped == s[offset..] && |skipped| == |s| - offset;
    assert forall i :: 0 <= i < |skipped| ==> Max(0, offset) + i < |s| && skipped[i] == s[Max(0, offset) + i];
    if limit < 0 || limit >= |skipped| then skipped else skipped[..limit]
  }

  function Min(a: int, b: int): int
  {
    if a <= b then a else b
  }

  function Max(a: int, b: int): int
  {
    if a >= b then a else b
  }
}

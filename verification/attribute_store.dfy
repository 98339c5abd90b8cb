/**
  The attribute table and the three store operations of the tool: add_attr
  inserts one row, del_attr selects rows and deletes them one id at a time,
  status_attr lists the rows ordered by type. The database is a table held in
  memory; statements the database refuses are given as parameters.
 */
module AttributeStore {
  import opened Wrappers
  import opened Bytes
  import opened Hosts
  import opened AttributeTypes
  import opened Catalog
  import opened ValueCodec

  /** One row of `attributes(id, type, value)`. */
  datatype Row = Row(id: nat, typ: int, value: seq<byte>)

  /** The table and the id the next insert will receive. */
  datatype Table = Table(rows: seq<Row>, nextId: nat)

  /** Ids are unique and below the next id to hand out. */
  ghost predicate Valid(t: Table)
  {
    && (forall x | x in t.rows :: x.id < t.nextId)
    && (forall x, y | x in t.rows && y in t.rows && x.id == y.id :: x == y)
  }

  /** Why an add, delete or listing failed. */
  datatype StoreError =
    | ParseFailed(cause: ParseError) // parse_attributes() returned FALSE
    | MissingValue                   // add without a value
    | InsertFailed                   // the INSERT did not affect exactly one row
    | QueryFailed                    // the SELECT could not be run
    | DeleteFailed(row: Row)         // the DELETE of this row did not affect exactly one row
    | NotFound                       // nothing matched the delete

  /** add_attr(): a value is required; one row is inserted under the resolved type. */
  function AddAttr(p: Parsers, t: Table, name: seq<byte>, value: seq<byte>, kind: ValueKind, insertFails: bool)
    : (r: (Table, Result<Row, StoreError>))
    ensures kind == NoValue ==> r == (t, Failure(MissingValue))
    ensures r.1.Failure? ==> r.0 == t
    ensures r.1.Success? <==> kind != NoValue && ParseAttributes(p, name, value, kind).Success? && !insertFails
    ensures r.1.Success? ==>
      var res := ParseAttributes(p, name, value, kind).value;
      && r.1.value == Row(t.nextId, res.typ, res.blob)
      && r.0 == Table(t.rows + [r.1.value], t.nextId + 1)
    ensures Valid(t) ==> Valid(r.0)
  {
    if kind == NoValue then (t, Failure(MissingValue))
    else
      match ParseAttributes(p, name, value, kind)
      case Failure(e) => (t, Failure(ParseFailed(e)))
      case Success(res) =>
        if insertFails then (t, Failure(InsertFailed))
        else
          var row := Row(t.nextId, res.typ, res.blob);
          (Table(t.rows + [row], t.nextId + 1), Success(row))
  }

  /**
    The WHERE clause del_attr() picks: with a value, type and value must both
    match; without one, the type alone, or either type when an IPv6 type is known.
   */
  predicate Selects(res: Resolved, x: Row)
  {
    if |res.blob| > 0 then x.typ == res.typ && x.value == res.blob
    else if res.typ6 == 0 then x.typ == res.typ
    else x.typ == res.typ || x.typ == res.typ6
  }

  /** The rows the SELECT of del_attr() returns, in table order. */
  function Selected(rows: seq<Row>, res: Resolved): (s: seq<Row>)
    ensures forall x :: x in s <==> x in rows && Selects(res, x)
  {
    if |rows| == 0 then []
    else (if Selects(res, rows[0]) then [rows[0]] else []) + Selected(rows[1..], res)
  }

  function IdsOf(s: seq<Row>): set<nat>
  {
    set x | x in s :: x.id
  }

  /** The table after `DELETE FROM attributes WHERE id = ?`. */
  function WithoutId(rows: seq<Row>, id: nat): (s: seq<Row>)
    ensures forall x :: x in s <==> x in rows && x.id != id
  {
    if |rows| == 0 then []
    else (if rows[0].id == id then [] else [rows[0]]) + WithoutId(rows[1..], id)
  }

  /** The table after deleting, one statement each, the ids of the rows in del, in order. */
  function DeleteEach(rows: seq<Row>, del: seq<Row>): seq<Row>
  {
    if |del| == 0 then rows
    else WithoutId(DeleteEach(rows, del[..|del| - 1]), del[|del| - 1].id)
  }

  /** Deleting row by row removes exactly the rows whose id is one of the deleted rows' ids. */
  lemma {:induction false} DeleteEachRemovesIds(rows: seq<Row>, del: seq<Row>)
    ensures forall x :: x in DeleteEach(rows, del) <==> x in rows && x.id !in IdsOf(del)
  {
    if |del| > 0 {
      var init := del[..|del| - 1];
      DeleteEachRemovesIds(rows, init);
      assert del == init + [del[|del| - 1]];
      assert IdsOf(del) == IdsOf(init) + {del[|del| - 1].id};
    }
  }

  /** The position of the first selected row whose DELETE the database refuses. */
  function FirstRefused(sel: seq<Row>, refused: set<nat>): (r: Option<nat>)
    ensures r.Some? ==> r.value < |sel| && sel[r.value].id in refused
    ensures r.Some? ==> forall j | 0 <= j < r.value :: sel[j].id !in refused
    ensures r.None? ==> forall j | 0 <= j < |sel| :: sel[j].id !in refused
  {
    if |sel| == 0 then None
    else if sel[0].id in refused then Some(0)
    else
      match FirstRefused(sel[1..], refused)
      case None => None
      case Some(k) => Some(k + 1)
  }

  /**
    The outcome of del_attr() as one function: the parse, the query, then the
    deletes in selection order, stopping at the first refused one; the rows
    deleted before it stay deleted.
   */
  function DeleteOutcome(p: Parsers, t: Table, name: seq<byte>, value: seq<byte>, kind: ValueKind,
                         queryFails: bool, refused: set<nat>): (Table, Result<seq<Row>, StoreError>)
  {
    match ParseAttributes(p, name, value, kind)
    case Failure(e) => (t, Failure(ParseFailed(e)))
    case Success(res) =>
      if queryFails then (t, Failure(QueryFailed))
      else
        var sel := Selected(t.rows, res);
        if |sel| == 0 then (t, Failure(NotFound))
        else
          match FirstRefused(sel, refused)
          case None => (Table(DeleteEach(t.rows, sel), t.nextId), Success(sel))
          case Some(k) => (Table(DeleteEach(t.rows, sel[..k]), t.nextId), Failure(DeleteFailed(sel[k])))
  }

  /**
    The delete loop of del_attr(): each selected row is deleted by its id, in
    selection order, until the database refuses one.
   */
  method DeleteRows(t: Table, sel: seq<Row>, refused: set<nat>) returns (t': Table, failed: Option<Row>)
    ensures t'.nextId == t.nextId
    ensures FirstRefused(sel, refused).None? ==>
      failed.None? && t'.rows == DeleteEach(t.rows, sel)
    ensures FirstRefused(sel, refused).Some? ==>
      var k := FirstRefused(sel, refused).value;
      failed == Some(sel[k]) && t'.rows == DeleteEach(t.rows, sel[..k])
  {
    var rows := t.rows;
    var i := 0;
    while i < |sel|
      invariant 0 <= i <= |sel|
      invariant rows == DeleteEach(t.rows, sel[..i])
      invariant forall j | 0 <= j < i :: sel[j].id !in refused
    {
      if sel[i].id in refused {
        assert FirstRefused(sel, refused) == Some(i);
        return Table(rows, t.nextId), Some(sel[i]);
      }
      assert sel[..i + 1][..i] == sel[..i];
      rows := WithoutId(rows, sel[i].id);
      i := i + 1;
    }
    assert sel[..i] == sel;
    return Table(rows, t.nextId), None;
  }

  /**
    del_attr(): select the matching rows, then delete each by its id; the
    deleted rows are returned in the order they were deleted.
   */
  method DelAttr(p: Parsers, t: Table, name: seq<byte>, value: seq<byte>, kind: ValueKind,
                 queryFails: bool, refused: set<nat>)
    returns (t': Table, r: Result<seq<Row>, StoreError>)
    ensures (t', r) == DeleteOutcome(p, t, name, value, kind, queryFails, refused)
  {
    var parsed := ParseAttributes(p, name, value, kind);
    if parsed.Failure? {
      return t, Failure(ParseFailed(parsed.error));
    }
    if queryFails {
      return t, Failure(QueryFailed);
    }
    var sel := Selected(t.rows, parsed.value);
    if |sel| == 0 {
      return t, Failure(NotFound);
    }
    var failed;
    t', failed := DeleteRows(t, sel, refused);
    r := if failed.Some? then Failure(DeleteFailed(failed.value)) else Success(sel);
  }

  /** One line of the status listing: `SELECT type, value`. */
  datatype Listing = Listing(typ: int, value: seq<byte>)

  function Project(rows: seq<Row>): (l: seq<Listing>)
    ensures |l| == |rows|
    ensures forall i | 0 <= i < |rows| :: l[i] == Listing(rows[i].typ, rows[i].value)
  {
    if |rows| == 0 then [] else [Listing(rows[0].typ, rows[0].value)] + Project(rows[1..])
  }

  predicate SortedByType(l: seq<Listing>)
  {
    forall i, j | 0 <= i < j < |l| :: l[i].typ <= l[j].typ
  }

  /** Place x before the first entry of larger type. */
  function Insert(x: Listing, l: seq<Listing>): (r: seq<Listing>)
    requires SortedByType(l)
    ensures SortedByType(r)
    ensures multiset(r) == multiset(l) + multiset{x}
    ensures forall y | y in r :: y == x || y in l
  {
    if |l| == 0 then [x]
    else if x.typ <= l[0].typ then [x] + l
    else
      var rest := Insert(x, l[1..]);
      assert l == [l[0]] + l[1..];
      assert forall y | y in rest :: y.typ >= l[0].typ;
      [l[0]] + rest
  }

  function SortByType(l: seq<Listing>): (r: seq<Listing>)
    ensures SortedByType(r)
    ensures multiset(r) == multiset(l)
  {
    if |l| == 0 then []
    else
      assert l == [l[0]] + l[1..];
      Insert(l[0], SortByType(l[1..]))
  }

  /**
    status_attr(): every row's type and value, ordered by type (ORDER BY
    leaves the order among equal types open; the listing is one such order).
    When the query cannot be run nothing is listed.
   */
  function StatusAttr(t: Table, queryFails: bool): (l: seq<Listing>)
    ensures queryFails ==> l == []
    ensures !queryFails ==> SortedByType(l) && multiset(l) == multiset(Project(t.rows))
  {
    if queryFails then [] else SortByType(Project(t.rows))
  }

  /** In a table with unique ids, deleting the ids of the selected rows deletes exactly the selected rows. */
  lemma SelectedIdsAreSelectedRows(t: Table, res: Resolved, x: Row)
    requires Valid(t) && x in t.rows
    ensures x.id in IdsOf(Selected(t.rows, res)) <==> Selects(res, x)
  {
    if x.id in IdsOf(Selected(t.rows, res)) {
      var y :| y in Selected(t.rows, res) && y.id == x.id;
      assert y in t.rows;
    }
  }

  /**
    A successful delete removes exactly the rows the selection matches, leaves
    every other row in place, returns the selected rows and keeps ids unique.
   */
  lemma DeleteRemovesExactlySelected(p: Parsers, t: Table, name: seq<byte>, value: seq<byte>, kind: ValueKind,
                                     refused: set<nat>)
    requires Valid(t)
    requires DeleteOutcome(p, t, name, value, kind, false, refused).1.Success?
    ensures var res := ParseAttributes(p, name, value, kind).value;
      var (t', r) := DeleteOutcome(p, t, name, value, kind, false, refused);
      && r.value == Selected(t.rows, res)
      && |r.value| > 0
      && (forall x :: x in t'.rows <==> x in t.rows && !Selects(res, x))
      && Valid(t')
  {
    var res := ParseAttributes(p, name, value, kind).value;
    DeleteEachRemovesIds(t.rows, Selected(t.rows, res));
    forall x | x in t.rows
      ensures x.id in IdsOf(Selected(t.rows, res)) <==> Selects(res, x)
    {
      SelectedIdsAreSelectedRows(t, res, x);
    }
  }

  /**
    A delete the database refuses stops the loop: that row and every row not
    selected are still there, the selected rows before it are gone.
   */
  lemma DeleteAbortKeepsRest(p: Parsers, t: Table, name: seq<byte>, value: seq<byte>, kind: ValueKind,
                             refused: set<nat>)
    requires Valid(t)
    requires DeleteOutcome(p, t, name, value, kind, false, refused).1.Failure?
    requires DeleteOutcome(p, t, name, value, kind, false, refused).1.error.DeleteFailed?
    ensures var res := ParseAttributes(p, name, value, kind).value;
      var (t', r) := DeleteOutcome(p, t, name, value, kind, false, refused);
      var failed := r.error.row;
      var k := FirstRefused(Selected(t.rows, res), refused).value;
      && failed in t.rows && Selects(res, failed) && failed.id in refused
      && failed in t'.rows
      && (forall x | x in t.rows && !Selects(res, x) :: x in t'.rows)
      && (forall j | 0 <= j < k :: Selected(t.rows, res)[j] !in t'.rows)
      && (forall x | x in t'.rows :: x in t.rows)
  {
    var res := ParseAttributes(p, name, value, kind).value;
    var sel := Selected(t.rows, res);
    var k := FirstRefused(sel, refused).value;
    DeleteEachRemovesIds(t.rows, sel[..k]);
    forall x | x in t.rows && !Selects(res, x)
      ensures x.id !in IdsOf(sel[..k])
    {
      SelectedIdsAreSelectedRows(t, res, x);
    }
    forall j | 0 <= j < k
      ensures sel[j].id in IdsOf(sel[..k])
    {
      assert sel[..k][j] == sel[j];
    }
  }

  /**
    A value-less delete of a dual-family keyword such as `dns` matches rows of
    either of its types, whatever their value.
   */
  lemma ValueLessDeleteMatchesBothFamilies(p: Parsers, name: seq<byte>, value: seq<byte>, i: nat, x: Row)
    requires Lookup(name) == Some(i) && Entries[i].typ6 != 0
    ensures var res := ParseAttributes(p, name, value, NoValue).value;
      Selects(res, x) <==> x.typ == Entries[i].typ || x.typ == Entries[i].typ6
  {
    ValueLessLookup(p, name, value, i);
  }

  /**
    A delete given a value (of any declared kind) never widens to the IPv6
    type: a non-empty blob matches the exact type and value, an empty one the
    type alone.
   */
  lemma ValuedDeleteSelection(p: Parsers, name: seq<byte>, value: seq<byte>, kind: ValueKind, x: Row)
    requires kind != NoValue && ParseAttributes(p, name, value, kind).Success?
    ensures var res := ParseAttributes(p, name, value, kind).value;
      && (|res.blob| > 0 ==> (Selects(res, x) <==> x.typ == res.typ && x.value == res.blob))
      && (|res.blob| == 0 ==> (Selects(res, x) <==> x.typ == res.typ))
  {
  }

  /** A row just added is found again by a delete with the same arguments, and is gone afterwards. */
  lemma AddThenDelete(p: Parsers, t: Table, name: seq<byte>, value: seq<byte>, kind: ValueKind)
    requires Valid(t) && AddAttr(p, t, name, value, kind, false).1.Success?
    ensures var (t1, added) := AddAttr(p, t, name, value, kind, false);
      var (t2, deleted) := DeleteOutcome(p, t1, name, value, kind, false, {});
      && deleted.Success?
      && added.value in deleted.value
      && added.value !in t2.rows
      && (forall x | x in t.rows && !Selects(ParseAttributes(p, name, value, kind).value, x) :: x in t2.rows)
  {
    var (t1, added) := AddAttr(p, t, name, value, kind, false);
    var res := ParseAttributes(p, name, value, kind).value;
    assert added.value in t1.rows;
    assert Selects(res, added.value);
    assert added.value in Selected(t1.rows, res);
    DeleteRemovesExactlySelected(p, t1, name, value, kind, {});
  }

  /** The status listing after an add shows the added type and value. */
  lemma StatusShowsAdded(p: Parsers, t: Table, name: seq<byte>, value: seq<byte>, kind: ValueKind)
    requires AddAttr(p, t, name, value, kind, false).1.Success?
    ensures var (t1, added) := AddAttr(p, t, name, value, kind, false);
      Listing(added.value.typ, added.value.value) in StatusAttr(t1, false)
  {
    var (t1, added) := AddAttr(p, t, name, value, kind, false);
    var l := Project(t1.rows);
    assert l[|t.rows|] == Listing(added.value.typ, added.value.value);
    assert Listing(added.value.typ, added.value.value) in multiset(l);
  }
}

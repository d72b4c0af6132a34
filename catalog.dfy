/**
 * The server side of the describe round trip, reduced to an abstract catalog,
 * and the per-ordinal column describe/map collaborator of the materialising
 * loop in OCI_TypeInfoGet.
 */
module Catalog {
  import opened Wrappers

  /** The width of OCI's ub2 counters (column counts and ordinals). */
  type UB2 = x: int | 0 <= x < 0x1_0000

  /** SQLT_NCO: the type code of a named collection. */
  const SqltNco: int := 122

  /** OCI_UNKNOWN, OCI_TIF_TABLE, OCI_TIF_VIEW and OCI_TIF_TYPE. */
  datatype Kind = UnknownKind | TableKind | ViewKind | TypeKind

  /** The three values the public entry point accepts for the requested kind. */
  predicate Requestable(k: Kind) {
    k.TableKind? || k.ViewKind? || k.TypeKind?
  }

  /** What a describe of one qualified name reports. */
  datatype Desc =
    | TypeDesc(predefined: bool, typecode: int, colcode: int, nattrs: UB2)
    | TableDesc(ncols: UB2)
    | ViewDesc(ncols: UB2)
    | TableAliasDesc(ncols: UB2)
    | SynonymDesc(schema: string, name: string, link: string)
    | OtherDesc

  /**
   * The collaborators OCI_TypeInfoGet cannot see: the catalog answering
   * OCIDescribeAny (a name not in it makes the describe fail), the column
   * describe-and-map step for one ordinal of one described object, and the
   * builder of a synonym target's full name.
   */
  datatype Server = Server(
    catalog: map<string, Desc>,
    columnOk: (string, nat) -> bool,
    fullName: (string, string, string) -> string)

  /** OCI_UNKNOWN, OCI_DESC_TABLE, OCI_DESC_TYPE and OCI_DESC_COLLECTION. */
  datatype DescContext = NoContext | TableContext | TypeContext | CollectionContext

  /** A slot of the column array: still zeroed, or described at an ordinal. */
  datatype Column = Blank | Described(ordinal: nat, context: DescContext)

  /** The first ordinal in from..n whose describe or map fails. */
  function FirstFailure(srv: Server, qual: string, from: nat, n: nat): (r: Option<nat>)
    decreases n + 1 - from
    ensures r.None? ==> forall j :: from <= j <= n ==> srv.columnOk(qual, j)
    ensures r.Some? ==> from <= r.value <= n && !srv.columnOk(qual, r.value)
    ensures r.Some? ==> forall j :: from <= j < r.value ==> srv.columnOk(qual, j)
  {
    if from > n then None
    else if !srv.columnOk(qual, from) then Some(from)
    else FirstFailure(srv, qual, from + 1, n)
  }

  /**
   * The outcome of describing ordinals 1..n in order and stopping at the
   * first failure: whether all succeeded, and the column array.
   */
  function ColumnsSpec(srv: Server, qual: string, n: nat, ctx: DescContext): (bool, seq<Column>) {
    var f := FirstFailure(srv, qual, 1, n);
    var done := if f.None? then n else f.value - 1;
    (f.None?, seq(n, i requires 0 <= i < n => if i < done then Described(i + 1, ctx) else Blank))
  }

  /** The loop over the zero-initialised column array. */
  method DescribeColumns(srv: Server, qual: string, n: nat, ctx: DescContext)
    returns (ok: bool, cols: seq<Column>)
    ensures (ok, cols) == ColumnsSpec(srv, qual, n, ctx)
  {
    cols := seq(n, i => Blank);
    ok := true;
    var i := 0;
    while i < n
      invariant 0 <= i <= n && |cols| == n && ok
      invariant forall j :: 1 <= j <= i ==> srv.columnOk(qual, j)
      invariant forall j :: 0 <= j < n ==> cols[j] == if j < i then Described(j + 1, ctx) else Blank
    {
      ok := ok && srv.columnOk(qual, i + 1);
      if !ok {
        break;
      }
      cols := cols[i := Described(i + 1, ctx)];
      i := i + 1;
    }
    var f := FirstFailure(srv, qual, 1, n);
    assert ok ==> f.None?;
    assert !ok ==> f == Some(i + 1);
    var expected := ColumnsSpec(srv, qual, n, ctx).1;
    assert |expected| == n;
    assert forall j :: 0 <= j < n ==> cols[j] == expected[j];
    assert cols == expected;
    assert ok == ColumnsSpec(srv, qual, n, ctx).0;
  }

  /**
   * Columns are described in order with ordinals 1..n; the array has n slots;
   * the outcome is success exactly when every ordinal succeeds, and a failure
   * at ordinal k leaves the slots from k on blank.
   */
  lemma ColumnsMeaning(srv: Server, qual: string, n: nat, ctx: DescContext)
    ensures |ColumnsSpec(srv, qual, n, ctx).1| == n
    ensures ColumnsSpec(srv, qual, n, ctx).0 <==> forall j :: 1 <= j <= n ==> srv.columnOk(qual, j)
    ensures ColumnsSpec(srv, qual, n, ctx).0 ==>
      forall i :: 0 <= i < n ==> ColumnsSpec(srv, qual, n, ctx).1[i] == Described(i + 1, ctx)
    ensures !ColumnsSpec(srv, qual, n, ctx).0 ==>
      exists k :: 1 <= k <= n && !srv.columnOk(qual, k) &&
        forall i :: 0 <= i < n ==> ColumnsSpec(srv, qual, n, ctx).1[i] == if i + 1 < k then Described(i + 1, ctx) else Blank
  {
    var f := FirstFailure(srv, qual, 1, n);
    if f.Some? {
      assert !srv.columnOk(qual, f.value);
    }
  }
}

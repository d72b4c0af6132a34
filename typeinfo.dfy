/**
 * OCI_TypeInfo objects and a connection's list of them, updated in place as
 * OCI_TypeInfoGet, OCI_TypeInfoFree and OCI_TypeInfoClose do.  Every method
 * that changes the list is proved to follow the functions of CacheSpec on
 * the values of the entries (Connection.Cache()).
 */
module TypeInfoCache {
  import opened Wrappers
  import opened Names
  import opened Catalog
  import opened CacheSpec
  import opened CacheLemmas

  class TypeInfo {
    var kind: Kind
    var con: Connection
    var name: string
    var schema: string
    var refcount: int
    var nbCols: nat
    var offsets: seq<int>
    var cols: seq<Column>
    var typecode: int
    var colcode: int
    var structSize: int
    var align: int

    function Val(): Entry
      reads this
    {
      Entry(kind, name, schema, refcount, nbCols, offsets, cols, typecode, colcode, structSize, align)
    }

    predicate Wf()
      reads this
    {
      EntryWf(Val())
    }

    /** A zeroed list item stamped with its identity (lines 182-197). */
    constructor Stamp(con: Connection, kind: Kind, schema: string, obj: string)
      ensures Val() == Placeholder(kind, schema, obj) && this.con == con
    {
      this.kind, this.con, this.name, this.schema := kind, con, obj, schema;
      refcount, nbCols, offsets, cols := 0, 0, [], [];
      typecode, colcode, structSize, align := 0, 0, 0, 0;
    }

    /** Lines 413-496: the column count, the offsets and the column array. */
    method FillColumns(count: UB2, ctx: DescContext, code: int, qual: string, srv: Server) returns (ok: bool)
      modifies this
      ensures (ok, Val()) == Materialize(old(Val()), count, ctx, code, qual, srv)
      ensures con == old(con)
    {
      var ptype := ctx;
      if typecode == SqltNco {
        nbCols := 1;
        ptype := CollectionContext;
        colcode := code;
      } else {
        nbCols := count;
      }
      ok := true;
      if nbCols > 0 {
        offsets := seq(nbCols, i => -1);
        var described;
        ok, described := DescribeColumns(srv, qual, nbCols, ptype);
        cols := described;
      }
    }

    /** The describe switch (lines 281-367) for every reported kind but a synonym. */
    method Describe(d: Desc, qual: string, srv: Server) returns (ok: bool)
      requires !d.SynonymDesc?
      modifies this
      ensures (ok, Val()) == Build(old(Val()), d, qual, srv)
      ensures con == old(con)
    {
      ok := true;
      if d.TypeDesc? {
        if kind != UnknownKind {
          ok := kind == TypeKind;
        }
        kind := TypeKind;
        if ok {
          if !d.predefined {
            typecode := d.typecode;
          }
          ok := FillColumns(d.nattrs, TypeContext, d.colcode, qual, srv);
        }
      } else if !d.OtherDesc? {
        var isView := d.ViewDesc?;
        if kind != UnknownKind {
          ok := (kind == TableKind && !isView) || (kind == ViewKind && isView);
        }
        kind := if isView then ViewKind else TableKind;
        if ok {
          ok := FillColumns(d.ncols, TableContext, 0, qual, srv);
        }
      }
    }
  }

  /** The values of a list of entries. */
  ghost function Abs(ts: seq<TypeInfo>): (r: seq<Entry>)
    reads ts
    ensures |r| == |ts|
    ensures forall i {:trigger ts[i]} :: 0 <= i < |ts| ==> r[i] == ts[i].Val()
  {
    if ts == [] then [] else Abs(ts[..|ts| - 1]) + [ts[|ts| - 1].Val()]
  }

  /** OCI_ListRemove: the list without its first item holding t. */
  function Without(ts: seq<TypeInfo>, t: TypeInfo): seq<TypeInfo> {
    if ts == [] then []
    else if ts[0] == t then ts[1..]
    else [ts[0]] + Without(ts[1..], t)
  }

  ghost predicate Distinct(ts: seq<TypeInfo>) {
    forall i, j :: 0 <= i < j < |ts| ==> ts[i] != ts[j]
  }

  lemma {:induction false} WithoutAt(ts: seq<TypeInfo>, k: nat)
    requires k < |ts|
    requires forall i :: 0 <= i < k ==> ts[i] != ts[k]
    ensures Without(ts, ts[k]) == ts[..k] + ts[k + 1..]
  {
    if k > 0 {
      WithoutAt(ts[1..], k - 1);
      assert ts[1..][..k - 1] + ts[1..][k..] == ts[1..k] + ts[k + 1..];
    }
  }

  lemma {:induction false} WithoutKeeps(ts: seq<TypeInfo>, t: TypeInfo)
    requires Distinct(ts)
    ensures Distinct(Without(ts, t)) && t !in Without(ts, t)
    ensures forall u :: u in Without(ts, t) ==> u in ts
  {
    if ts == [] {
      return;
    }
    var rest := ts[1..];
    assert Distinct(rest) by {
      forall i, j | 0 <= i < j < |rest| ensures rest[i] != rest[j] {
        assert rest[i] == ts[i + 1] && rest[j] == ts[j + 1];
      }
    }
    assert ts[0] !in rest by {
      forall i | 0 <= i < |rest| ensures rest[i] != ts[0] {
        assert rest[i] == ts[i + 1];
      }
    }
    if ts[0] != t {
      WithoutKeeps(rest, t);
      var w := Without(rest, t);
      assert Without(ts, t) == [ts[0]] + w;
      assert ts[0] !in w;
      forall i, j | 0 <= i < j < |w| + 1 ensures ([ts[0]] + w)[i] != ([ts[0]] + w)[j] {
        if i > 0 {
          assert ([ts[0]] + w)[i] == w[i - 1];
        }
        assert ([ts[0]] + w)[j] == w[j - 1];
      }
    }
  }

  /** Where the item at j of `s` sits in `now`, which is `s` or `s` without its item at k. */
  lemma Reindex<T>(s: seq<T>, now: seq<T>, k: nat, j: nat)
    requires k < |s| && j < |s|
    requires now == s || (now == s[..k] + s[k + 1..] && j != k)
    ensures var i := if |now| < |s| && j > k then j - 1 else j; i < |now| && now[i] == s[j]
  {
  }

  /** Only the entry at k differs from the snapshot `before`. */
  lemma AbsAfterUpdate(ts: seq<TypeInfo>, k: nat, before: seq<Entry>)
    requires k < |ts| == |before|
    requires forall i :: 0 <= i < |ts| && i != k ==> ts[i].Val() == before[i]
    ensures Abs(ts) == before[k := ts[k].Val()]
  {
  }

  /**
   * The list after OCI_TypeInfoFree on its entry at k, against the values
   * `before` the list had: the values Release gives.
   */
  lemma ReleasedAbs(ts: seq<TypeInfo>, k: nat, now: seq<TypeInfo>, before: seq<Entry>)
    requires k < |ts| == |before|
    requires forall i :: 0 <= i < |ts| && i != k ==> ts[i].Val() == before[i]
    requires ts[k].refcount == before[k].refcount - 1
    requires ts[k].refcount != 0 ==> now == ts && ts[k].Val() == before[k].(refcount := ts[k].refcount)
    requires ts[k].refcount == 0 ==> now == ts[..k] + ts[k + 1..]
    ensures Abs(now) == Release(before, k)
  {
    var rel := Release(before, k);
    if ts[k].refcount != 0 {
      assert rel == before[k := ts[k].Val()];
      AbsAfterUpdate(ts, k, before);
    } else {
      assert rel == before[..k] + before[k + 1..];
      assert |Abs(now)| == |rel|;
      forall i | 0 <= i < |now| ensures Abs(now)[i] == rel[i] {
        if i < k {
          assert now[i] == ts[i] && rel[i] == before[i];
        } else {
          assert now[i] == ts[i + 1] && rel[i] == before[i + 1];
        }
      }
    }
  }

  /**
   * A nested lookup that hands back the unreferenced entry at n, in a list
   * without duplicates whose values are its outcome, leaves that entry held once.
   */
  lemma SelfHeld(ts: seq<TypeInfo>, c0: seq<Entry>, inner: (Option<nat>, seq<Entry>), n: nat)
    requires Distinct(ts) && Abs(ts) == inner.1
    requires n < |c0| && c0[n].refcount == 0 && (inner.0 == Some(n) ==> inner.1 == Bump(c0, n))
    requires inner.0.Some? && inner.0.value < |ts| && n < |ts| && ts[inner.0.value] == ts[n]
    ensures ts[n].refcount == 1
  {
    assert inner.0 == Some(n);
    assert inner.1[n] == ts[n].Val();
  }

  /** OCI_TypeInfoClose: drop the strings and arrays the entry owns. */
  method Close(t: TypeInfo?) returns (ok: bool)
    modifies t
    ensures ok == (t != null)
    ensures t != null ==> t.Val() == old(t.Val()).(name := "", schema := "", offsets := [], cols := [])
    ensures t != null ==> t.con == old(t.con)
  {
    if t == null {
      return false;
    }
    t.cols := [];
    t.name := "";
    t.schema := "";
    t.offsets := [];
    return true;
  }

  /**
   * OCI_TypeInfoFree: one reference fewer; at zero the entry leaves its
   * connection's list and is closed.  Reports success for any descriptor.
   */
  method Free(t: TypeInfo?) returns (ok: bool)
    requires t != null ==> t.con.Valid()
    modifies if t == null then {} else {t, t.con}
    ensures ok == (t != null)
    ensures t != null ==> t.con == old(t.con) && t.con.Valid()
    ensures t != null && t.refcount != 0 ==>
      t.con.tinfs == old(t.con.tinfs) && t.Val() == old(t.Val()).(refcount := old(t.refcount) - 1)
    ensures t != null && t.refcount == 0 ==>
      && old(t.refcount) == 1
      && t.con.tinfs == Without(old(t.con.tinfs), t)
      && t.Val() == old(t.Val()).(refcount := 0, name := "", schema := "", offsets := [], cols := [])
  {
    if t == null {
      return false;
    }
    t.refcount := t.refcount - 1;
    if t.refcount == 0 {
      WithoutKeeps(t.con.tinfs, t);
      t.con.tinfs := Without(t.con.tinfs, t);
      ok := Close(t);
    }
    return true;
  }

  /** OCI_TypeInfoGetType: the stored kind, or OCI_UNKNOWN for no descriptor. */
  function GetType(t: TypeInfo?): (k: Kind)
    reads t
    ensures t == null ==> k == UnknownKind
    ensures t != null ==> k == t.kind
  {
    if t == null then UnknownKind else t.kind
  }

  /** OCI_TypeInfoGetConnection: the owning connection, or NULL for no descriptor. */
  function GetConnection(t: TypeInfo?): (c: Connection?)
    reads t
    ensures c == null <==> t == null
    ensures t != null ==> c == t.con
  {
    if t == null then null else t.con
  }

  /** OCI_TypeInfoGetColumnCount: the number of columns, 0 for no descriptor. */
  function GetColumnCount(t: TypeInfo?): (n: nat)
    reads t
    ensures t == null ==> n == 0
    ensures t != null ==> n == t.nbCols
  {
    if t == null then 0 else t.nbCols
  }

  /**
   * OCI_TypeInfoGetColumn: the column at the 1-based `index`; NULL for no
   * descriptor or an index outside 1..nb_cols.
   */
  function GetColumn(t: TypeInfo?, index: nat): (r: Option<Column>)
    requires t != null ==> t.Wf()
    reads t
    ensures r.Some? <==> t != null && 1 <= index <= t.nbCols
    ensures r.Some? ==> t != null && r.value == t.cols[index - 1]
  {
    if t == null || index < 1 || index > t.nbCols then None else Some(t.cols[index - 1])
  }

  /** OCI_TypeInfoGetName: the object name, or NULL for no descriptor. */
  function GetName(t: TypeInfo?): (r: Option<string>)
    reads t
    ensures r.Some? <==> t != null
    ensures t != null ==> r == Some(t.name)
  {
    if t == null then None else Some(t.name)
  }

  /**
   * GetColumn succeeds for exactly the indices 1..GetColumnCount, and lists
   * the columns in the order of the column array.
   */
  lemma {:induction false} ColumnsInRange(t: TypeInfo?)
    requires t != null ==> t.Wf()
    ensures forall i: nat {:trigger GetColumn(t, i)} :: GetColumn(t, i).Some? <==> 1 <= i <= GetColumnCount(t)
    ensures t != null ==> forall i :: 0 <= i < |t.cols| ==> GetColumn(t, i + 1) == Some(t.cols[i])
  {
  }

  class Connection {
    var tinfs: seq<TypeInfo>

    constructor ()
      ensures tinfs == []
    {
      tinfs := [];
    }

    ghost predicate Valid()
      reads this, tinfs
    {
      && Distinct(tinfs)
      && forall t :: t in tinfs ==> t.con == this && t.Wf()
    }

    ghost function Cache(): seq<Entry>
      reads this, tinfs
    {
      Abs(tinfs)
    }

    /** The list walk of lines 157-176. */
    method Walk(kind: Kind, schema: string, obj: string) returns (found: Option<nat>)
      ensures found == Find(Cache(), kind, schema, obj)
    {
      var i := 0;
      while i < |tinfs|
        invariant 0 <= i <= |tinfs|
        invariant forall j :: 0 <= j < i ==> !Matches(Cache()[j], kind, schema, obj)
      {
        var t := tinfs[i];
        if t.kind == kind && EqualIgnoreCase(t.name, obj) && EqualIgnoreCase(t.schema, schema) {
          FindIs(Cache(), kind, schema, obj, i);
          return Some(i);
        }
        i := i + 1;
      }
      return None;
    }

    /** One more reference on the listed entry t at k (line 510). */
    method Retain(t: TypeInfo, ghost k: nat)
      requires Valid() && k < |tinfs| && tinfs[k] == t
      modifies t
      ensures Valid() && tinfs == old(tinfs)
      ensures Cache() == Bump(old(Cache()), k)
    {
      ghost var before := Cache();
      t.refcount := t.refcount + 1;
      forall i | 0 <= i < |tinfs| && i != k ensures tinfs[i].Val() == before[i] {
        assert tinfs[i] != t;
      }
      AbsAfterUpdate(tinfs, k, before);
    }

    /** OCI_TypeInfoFree on the listed entry t at k, seen on the values. */
    method Drop(t: TypeInfo, ghost k: nat)
      requires Valid() && k < |tinfs| && tinfs[k] == t
      modifies this, t
      ensures Valid()
      ensures Cache() == Release(old(Cache()), k)
      ensures tinfs == old(tinfs) || tinfs == old(tinfs[..k] + tinfs[k + 1..])
      ensures t.refcount == old(t.refcount) - 1 && (t.refcount != 0 <==> tinfs == old(tinfs))
    {
      ghost var ts := tinfs;
      ghost var before := Cache();
      var freed := Free(t);
      forall i | 0 <= i < |ts| && i != k ensures ts[i].Val() == before[i] {
        assert ts[i] != t;
      }
      WithoutAt(ts, k);
      ReleasedAbs(ts, k, tinfs, before);
    }

    /**
     * Lines 508-536 for the entry t appended at n: count the reference, check
     * the kind, release t after a failure or a synonym, and hand out the
     * synonym's target or t.
     */
    method Finish(t: TypeInfo, kind: Kind, status: bool, syn: TypeInfo?, ghost n: nat, ghost synIdx: Option<nat>,
                  ghost want: (Option<nat>, seq<Entry>))
      returns (r: TypeInfo?)
      requires Valid() && n < |tinfs| && tinfs[n] == t
      requires synIdx.None? <==> syn == null
      requires synIdx.Some? ==> synIdx.value < |tinfs| && tinfs[synIdx.value] == syn
      requires syn == t ==> t.refcount >= 1
      requires want == Complete(Cache(), n, kind, status, synIdx)
      modifies this, t
      ensures Valid() && Cache() == want.1
      ensures r == null <==> want.0.None?
      ensures r != null ==> want.0.value < |tinfs| && r == tinfs[want.0.value]
      ensures tinfs == old(tinfs) || tinfs == old(tinfs[..n] + tinfs[n + 1..])
    {
      ghost var c := Cache();
      Retain(t, n);
      var ok := status;
      if kind != UnknownKind && t.kind != kind {
        ok := false;
      }
      assert ok == (status && (kind == UnknownKind || Bump(c, n)[n].kind == kind));
      if ok && syn == null {
        return t;
      }
      r := Discard(t, n, ok, syn, synIdx);
    }

    /**
     * Lines 523-534 after a failure or a synonym: free t, the entry at n, and
     * hand out the synonym's target on success.
     */
    method Discard(t: TypeInfo, ghost n: nat, ok: bool, syn: TypeInfo?, ghost synIdx: Option<nat>)
      returns (r: TypeInfo?)
      requires Valid() && n < |tinfs| && tinfs[n] == t && (ok ==> syn != null)
      requires synIdx.None? <==> syn == null
      requires synIdx.Some? ==> synIdx.value < |tinfs| && tinfs[synIdx.value] == syn
      requires syn == t ==> t.refcount >= 2
      modifies this, t
      ensures Valid() && Cache() == Settle(old(Cache()), n, ok, synIdx).1
      ensures r == null <==> Settle(old(Cache()), n, ok, synIdx).0.None?
      ensures r != null ==>
        Settle(old(Cache()), n, ok, synIdx).0.value < |tinfs| &&
        r == tinfs[Settle(old(Cache()), n, ok, synIdx).0.value]
      ensures tinfs == old(tinfs) || tinfs == old(tinfs[..n] + tinfs[n + 1..])
    {
      ghost var ts := tinfs;
      Drop(t, n);
      if !ok {
        return null;
      }
      r := syn;
      ghost var j := synIdx.value;
      assert j == n ==> tinfs == ts;
      Reindex(ts, tinfs, n, j);
    }

    /**
     * OCI_TypeInfoGet: the descriptor for `name` of the requested kind, from
     * the list or newly described; NULL on failure.  The list and its
     * entries change exactly as Resolve says; entries already listed keep
     * their places.
     */
    method Get(name: string, kind: Kind, srv: Server, fuel: nat) returns (r: TypeInfo?)
      requires Valid()
      modifies this, tinfs
      ensures Valid() && Cache() == Resolve(old(Cache()), name, kind, srv, fuel).1
      ensures r == null <==> Resolve(old(Cache()), name, kind, srv, fuel).0.None?
      ensures r != null ==>
        Resolve(old(Cache()), name, kind, srv, fuel).0.value < |tinfs| &&
        r == tinfs[Resolve(old(Cache()), name, kind, srv, fuel).0.value]
      ensures |old(tinfs)| <= |tinfs| && tinfs[..|old(tinfs)|] == old(tinfs)
      ensures r != null ==> r.kind == kind
    {
      ghost var want := Resolve(Cache(), name, kind, srv, fuel);
      ResolveShape(Cache(), name, kind, srv, fuel);
      if want.0.Some? {
        OutcomeKind(Cache(), want, kind);
      }
      r := Obtain(name, kind, srv, fuel, want);
    }

    /**
     * The body of OCI_TypeInfoGet, given as `want` the outcome Resolve
     * predicts for the list as it is on entry; the synonym branch comes back
     * here.
     */
    method Obtain(name: string, kind: Kind, srv: Server, fuel: nat, ghost want: (Option<nat>, seq<Entry>))
      returns (r: TypeInfo?)
      requires Valid() && want == Resolve(Cache(), name, kind, srv, fuel)
      modifies this, tinfs
      decreases fuel, 5
      ensures Valid() && Cache() == want.1
      ensures r == null <==> want.0.None?
      ensures r != null ==> want.0.value < |tinfs| && r == tinfs[want.0.value]
      ensures |old(tinfs)| <= |tinfs| && tinfs[..|old(tinfs)|] == old(tinfs)
    {
      if !Requestable(kind) {
        return null;
      }
      var schema, obj := NormalizeName(name);
      r := Search(schema, obj, kind, srv, fuel, want);
    }

    /** Lines 155-181 on a normalised name: the walk, and on a hit one more reference. */
    method Search(schema: string, obj: string, kind: Kind, srv: Server, fuel: nat,
                  ghost want: (Option<nat>, seq<Entry>))
      returns (r: TypeInfo?)
      requires Valid() && want == Lookup(Cache(), schema, obj, kind, srv, fuel)
      modifies this, tinfs
      decreases fuel, 4
      ensures Valid() && Cache() == want.1
      ensures r == null <==> want.0.None?
      ensures r != null ==> want.0.value < |tinfs| && r == tinfs[want.0.value]
      ensures |old(tinfs)| <= |tinfs| && tinfs[..|old(tinfs)|] == old(tinfs)
    {
      ghost var c := Cache();
      var found := Walk(kind, schema, obj);
      if found.Some? {
        r := tinfs[found.value];
        Retain(r, found.value);
        return;
      }
      r := Load(c, schema, obj, kind, srv, fuel, want);
    }

    /** Lines 182-536 on a miss: append a new entry, fill it in and complete. */
    method Load(ghost c: seq<Entry>, schema: string, obj: string, kind: Kind, srv: Server, fuel: nat,
                ghost want: (Option<nat>, seq<Entry>))
      returns (r: TypeInfo?)
      requires Valid() && Cache() == c && Find(c, kind, schema, obj).None?
      requires want == Lookup(c, schema, obj, kind, srv, fuel)
      modifies this, tinfs
      decreases fuel, 3
      ensures Valid() && Cache() == want.1
      ensures r == null <==> want.0.None?
      ensures r != null ==> want.0.value < |tinfs| && r == tinfs[want.0.value]
      ensures |old(tinfs)| <= |tinfs| && tinfs[..|old(tinfs)|] == old(tinfs)
    {
      var n := |tinfs|;
      var t := Append(kind, schema, obj);
      var status, syn, synIdx := Fetch(t, n, c, schema, obj, kind, srv, fuel, want);
      ghost var loaded := tinfs;
      assert loaded[..n] == old(tinfs);
      r := Finish(t, kind, status, syn, n, synIdx, want);
    }

    /** Lines 182-197: a zeroed entry for the normalised name, appended to the list. */
    method Append(kind: Kind, schema: string, obj: string) returns (t: TypeInfo)
      requires Valid()
      modifies this
      ensures fresh(t) && Valid() && tinfs == old(tinfs) + [t] && t.kind == kind
      ensures Cache() == old(Cache()) + [Placeholder(kind, schema, obj)]
    {
      t := new TypeInfo.Stamp(this, kind, schema, obj);
      tinfs := tinfs + [t];
    }

    /**
     * Lines 198-506 for the entry t just appended at n: describe the object
     * and fill t in, or follow a synonym by a nested Get.
     */
    method Fetch(t: TypeInfo, ghost n: nat, ghost c: seq<Entry>, schema: string, obj: string, kind: Kind,
                 srv: Server, fuel: nat, ghost want: (Option<nat>, seq<Entry>))
      returns (status: bool, syn: TypeInfo?, ghost synIdx: Option<nat>)
      requires Valid() && n + 1 == |tinfs| && tinfs[n] == t && t.kind == kind
      requires |c| == n && Cache() == c + [Placeholder(kind, schema, obj)]
      requires Find(c, kind, schema, obj).None? && want == Lookup(c, schema, obj, kind, srv, fuel)
      modifies this, tinfs
      decreases fuel, 2
      ensures Valid() && n < |tinfs| && tinfs[n] == t
      ensures Complete(Cache(), n, kind, status, synIdx) == want
      ensures synIdx.None? <==> syn == null
      ensures synIdx.Some? ==> synIdx.value < |tinfs| && tinfs[synIdx.value] == syn
      ensures syn == t ==> t.refcount >= 1
      ensures tinfs[..n + 1] == old(tinfs)
    {
      var qual := Qualified(schema, obj);
      ghost var ph := Placeholder(kind, schema, obj);
      LookupMiss(c, schema, obj, kind, srv, fuel);
      status, syn, synIdx := false, null, None;
      if qual !in srv.catalog {
        return;
      }
      var d := srv.catalog[qual];
      if !d.SynonymDesc? {
        status := Fill(t, n, c + [ph], d, qual, srv);
        assert (c + [ph])[n := Build(ph, d, qual, srv).1] == c + [Build(ph, d, qual, srv).1];
        return;
      }
      if fuel == 0 {
        return;
      }
      ghost var inner := Resolve(c + [ph], srv.fullName(d.schema, d.name, d.link), kind, srv, fuel - 1);
      syn := Redirect(t, n, c + [ph], d, kind, srv, fuel, inner);
      synIdx := inner.0;
      status := syn != null;
    }

    /**
     * Lines 368-408: a synonym's full target name, and the nested lookup of
     * it with t's kind.  A chain that comes back to t finds t in the list,
     * still unreferenced, and hands it out one count up.
     */
    method Redirect(t: TypeInfo, ghost n: nat, ghost c0: seq<Entry>, d: Desc, kind: Kind, srv: Server,
                    fuel: nat, ghost inner: (Option<nat>, seq<Entry>))
      returns (syn: TypeInfo?)
      requires Valid() && n + 1 == |tinfs| && tinfs[n] == t && t.kind == kind
      requires Cache() == c0 && c0[n].refcount == 0 && fuel > 0 && d.SynonymDesc?
      requires inner == Resolve(c0, srv.fullName(d.schema, d.name, d.link), kind, srv, fuel - 1)
      modifies this, tinfs
      decreases fuel, 1
      ensures Valid() && Cache() == inner.1 && n < |tinfs| && tinfs[n] == t
      ensures inner.0.None? <==> syn == null
      ensures inner.0.Some? ==> inner.0.value < |tinfs| && tinfs[inner.0.value] == syn
      ensures syn == t ==> t.refcount >= 1
      ensures tinfs[..n + 1] == old(tinfs)
    {
      var target := srv.fullName(d.schema, d.name, d.link);
      ResolveAt(c0, target, kind, srv, fuel - 1, inner, n);
      syn := Follow(t, n, c0, target, kind, srv, fuel, inner);
    }

    /** Line 395: the nested OCI_TypeInfoGet, given the outcome Resolve predicts for it. */
    method Follow(t: TypeInfo, ghost n: nat, ghost c0: seq<Entry>, target: string, kind: Kind, srv: Server,
                  fuel: nat, ghost inner: (Option<nat>, seq<Entry>))
      returns (syn: TypeInfo?)
      requires Valid() && n + 1 == |tinfs| && tinfs[n] == t && t.kind == kind
      requires Cache() == c0 && c0[n].refcount == 0 && fuel > 0
      requires inner == Resolve(c0, target, kind, srv, fuel - 1)
      requires inner.0 == Some(n) ==> inner.1 == Bump(c0, n)
      modifies this, tinfs
      decreases fuel, 0
      ensures Valid() && Cache() == inner.1 && n < |tinfs| && tinfs[n] == t
      ensures inner.0.None? <==> syn == null
      ensures inner.0.Some? ==> inner.0.value < |tinfs| && tinfs[inner.0.value] == syn
      ensures syn == t ==> t.refcount >= 1
      ensures tinfs[..n + 1] == old(tinfs)
    {
      syn := Obtain(target, kind, srv, fuel - 1, inner);
      if syn == t {
        SelfHeld(tinfs, c0, inner, n);
      }
    }

    /** The describe switch on the listed entry t at n for anything but a synonym. */
    method Fill(t: TypeInfo, ghost n: nat, ghost before: seq<Entry>, d: Desc, qual: string, srv: Server)
      returns (ok: bool)
      requires Valid() && n < |tinfs| && tinfs[n] == t && !d.SynonymDesc?
      requires Cache() == before && before[n].nbCols == 0
      modifies t
      ensures Valid() && tinfs == old(tinfs)
      ensures Cache() == before[n := Build(before[n], d, qual, srv).1]
      ensures ok == Build(before[n], d, qual, srv).0
    {
      ok := t.Describe(d, qual, srv);
      BuildKeeps(before[n], d, qual, srv);
      forall i | 0 <= i < |tinfs| && i != n ensures tinfs[i].Val() == before[i] {
        assert tinfs[i] != t;
      }
      AbsAfterUpdate(tinfs, n, before);
    }
  }
}

/**
 * Name normalisation of OCI_TypeInfoGet: a possibly schema-qualified object
 * name is split at its first dot and each part is upper-cased unless it is
 * quoted.  Strings stand for the characters before the C terminator.
 */
module Names {
  import opened Wrappers

  /** OCI_SIZE_OBJ_NAME: the longest object part that is kept. */
  const MaxObjName: nat := 128

  /** otoupper on the ASCII letters. */
  function ToUpper(c: char): char {
    if 'a' <= c <= 'z' then (c as int - 32) as char else c
  }

  /** tolower on the ASCII letters, as ostrcasecmp compares. */
  function ToLower(c: char): char {
    if 'A' <= c <= 'Z' then (c as int + 32) as char else c
  }

  function UpperAll(s: string): string {
    seq(|s|, i requires 0 <= i < |s| => ToUpper(s[i]))
  }

  /** ostrcasecmp(a, b) == 0 */
  predicate EqualIgnoreCase(a: string, b: string) {
    |a| == |b| && forall i :: 0 <= i < |a| ==> ToLower(a[i]) == ToLower(b[i])
  }

  /** The position of the first '.', if any. */
  function FirstDot(s: string): (r: Option<nat>)
    ensures r.None? ==> forall i :: 0 <= i < |s| ==> s[i] != '.'
    ensures r.Some? ==> r.value < |s| && s[r.value] == '.'
    ensures r.Some? ==> forall i :: 0 <= i < r.value ==> s[i] != '.'
  {
    if s == [] then None
    else if s[0] == '.' then Some(0)
    else match FirstDot(s[1..])
      case None => None
      case Some(i) => Some(i + 1)
  }

  /** ostrncat into an empty buffer with the bound OCI_SIZE_OBJ_NAME. */
  function Truncate(s: string): string {
    if |s| <= MaxObjName then s else s[..MaxObjName]
  }

  /**
   * The schema is the text before the first dot (not bounded); the object is
   * the text after it, cut to MaxObjName.  When there is no dot, or nothing
   * follows it, the object is the whole input cut to MaxObjName.
   */
  function Split(name: string): (string, string) {
    match FirstDot(name)
    case None => ("", Truncate(name))
    case Some(i) =>
      var obj := Truncate(name[i + 1..]);
      if obj == "" then (name[..i], Truncate(name)) else (name[..i], obj)
  }

  predicate Quoted(part: string) {
    |part| > 0 && part[0] == '"'
  }

  /** A quoted part is kept verbatim, any other part is upper-cased. */
  function Fold(part: string): string {
    if Quoted(part) then part else UpperAll(part)
  }

  /** (schema, object) as OCI_TypeInfoGet uses them for the lookup. */
  function Normalize(name: string): (string, string) {
    var (schema, obj) := Split(name);
    (Fold(schema), Fold(obj))
  }

  /** The full name handed to the describe call: "schema.object" or "object". */
  function Qualified(schema: string, obj: string): string {
    if schema != "" then schema + "." + obj else obj
  }

  /** The in-place upper-casing loop over one name buffer. */
  method UpperInPlace(s: string) returns (r: string)
    ensures r == UpperAll(s)
  {
    r := s;
    var i := 0;
    while i < |r|
      invariant 0 <= i <= |r| == |s|
      invariant forall j :: 0 <= j < i ==> r[j] == ToUpper(s[j])
      invariant forall j :: i <= j < |r| ==> r[j] == s[j]
    {
      r := r[i := ToUpper(r[i])];
      i := i + 1;
    }
  }

  /** The splitting and case-folding steps of OCI_TypeInfoGet. */
  method NormalizeName(name: string) returns (schema: string, obj: string)
    ensures (schema, obj) == Normalize(name)
    ensures |obj| <= MaxObjName
  {
    schema, obj := "", "";
    var i := 0;
    while i < |name|
      invariant 0 <= i <= |name|
      invariant forall j :: 0 <= j < i ==> name[j] != '.'
      invariant schema == "" && obj == ""
    {
      if name[i] == '.' {
        schema := name[..i];
        obj := Truncate(name[i + 1..]);
        break;
      }
      i := i + 1;
    }
    if obj == "" {
      obj := Truncate(name);
    }
    assert (schema, obj) == Split(name);
    if !Quoted(obj) {
      obj := UpperInPlace(obj);
    }
    if !Quoted(schema) {
      schema := UpperInPlace(schema);
    }
  }

  lemma SplitNoDot(name: string)
    requires forall i :: 0 <= i < |name| ==> name[i] != '.'
    ensures Normalize(name) == ("", Fold(Truncate(name)))
  {
    assert FirstDot(name).None?;
    assert UpperAll("") == "";
  }

  lemma {:induction false} FirstDotOf(a: string, b: string)
    requires forall i :: 0 <= i < |a| ==> a[i] != '.'
    ensures FirstDot(a + "." + b) == Some(|a|)
  {
    var s := a + "." + b;
    assert s[|a|] == '.';
    assert forall i :: 0 <= i < |a| ==> s[i] == a[i];
  }

  /** Text before the first dot is the schema, text after it the object. */
  lemma SplitAtDot(a: string, b: string)
    requires forall i :: 0 <= i < |a| ==> a[i] != '.'
    requires b != ""
    ensures Split(a + "." + b) == (a, Truncate(b))
    ensures Normalize(a + "." + b) == (Fold(a), Fold(Truncate(b)))
  {
    var s := a + "." + b;
    FirstDotOf(a, b);
    assert s[..|a|] == a;
    assert s[|a| + 1..] == b;
  }

  /** A trailing dot keeps the schema but makes the whole input the object. */
  lemma SplitTrailingDot(a: string)
    requires forall i :: 0 <= i < |a| ==> a[i] != '.'
    ensures Split(a + ".") == (a, Truncate(a + "."))
  {
    var s := a + ".";
    FirstDotOf(a, "");
    assert s == a + "." + "";
    assert s[..|a|] == a;
    assert s[|a| + 1..] == "";
  }

  lemma ObjectBounded(name: string)
    ensures |Normalize(name).1| <= MaxObjName
  {
  }

  /** An unquoted part comes out with no lower-case ASCII letter. */
  lemma FoldUpper(part: string)
    requires !Quoted(part)
    ensures |Fold(part)| == |part|
    ensures forall i :: 0 <= i < |part| ==> !('a' <= Fold(part)[i] <= 'z')
  {
  }

  lemma {:induction false} FoldIdempotent(part: string)
    ensures Fold(Fold(part)) == Fold(part)
  {
    if !Quoted(part) {
      var u := UpperAll(part);
      if |part| > 0 {
        assert u[0] == ToUpper(part[0]);
      }
      assert UpperAll(u) == u;
    }
  }

  lemma CharCase(x: char, y: char)
    ensures ToLower(x) == ToLower(y) <==> ToUpper(x) == ToUpper(y)
  {
  }

  /** Case-insensitive equality is equality after upper-casing. */
  lemma {:induction false} EqualIgnoreCaseIffUpper(a: string, b: string)
    ensures EqualIgnoreCase(a, b) <==> UpperAll(a) == UpperAll(b)
  {
    if EqualIgnoreCase(a, b) {
      forall i | 0 <= i < |a| ensures UpperAll(a)[i] == UpperAll(b)[i] {
        CharCase(a[i], b[i]);
      }
    }
    if UpperAll(a) == UpperAll(b) {
      assert |a| == |b|;
      forall i | 0 <= i < |a| ensures ToLower(a[i]) == ToLower(b[i]) {
        assert UpperAll(a)[i] == UpperAll(b)[i];
        CharCase(a[i], b[i]);
      }
    }
  }

  lemma NormalizeExamples()
    ensures Normalize("emp") == ("", "EMP")
    ensures Normalize("\"Emp\"") == ("", "\"Emp\"")
    ensures Normalize("hr.emp") == ("HR", "EMP")
  {
    SplitNoDot("emp");
    SplitNoDot("\"Emp\"");
    SplitAtDot("hr", "emp");
    assert "hr" + "." + "emp" == "hr.emp";
    assert UpperAll("emp") == "EMP";
    assert UpperAll("hr") == "HR";
  }
}

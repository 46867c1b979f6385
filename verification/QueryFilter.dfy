/** The construction of filter queries: only whitelisted columns may reach the query text. The whitelist is sorted and
    its search stops early. */
module QueryFilter {
  import opened Wrappers

  datatype Filter = Filter(field: string, value: string)

  /** Strings are compared lexicographically. */
  predicate Less(a: string, b: string) {
    b != [] && (a == [] || a[0] < b[0] || (a[0] == b[0] && Less(a[1..], b[1..])))
  }

  predicate Sorted(fields: seq<string>) {
    forall i, j :: 0 <= i < j < |fields| ==> !Less(fields[j], fields[i])
  }

  lemma {:induction false} Irreflexive(a: string)
    ensures !Less(a, a)
    decreases |a|
  {
    if a == [] {
    } else {
      Irreflexive(a[1..]);
    }
  }

  lemma {:induction false} Asymmetric(a: string, b: string)
    requires Less(a, b)
    ensures !Less(b, a)
    decreases |a|
  {
    if a != [] && a[0] == b[0] {
      Asymmetric(a[1..], b[1..]);
    }
  }

  /** A field behind one that is greater than `f` is not `f`. */
  lemma {:induction false} GreaterStaysGreater(f: string, x: string, y: string)
    requires Less(f, x) && !Less(y, x)
    ensures Less(f, y)
    decreases |x|
  {
    if f != [] && y != [] && x[0] == f[0] && x[0] == y[0] {
      GreaterStaysGreater(f[1..], x[1..], y[1..]);
    }
  }

  lemma {:induction false} Total(a: string, b: string)
    ensures Less(a, b) || a == b || Less(b, a)
    decreases |a|
  {
    if a != [] && b != [] && a[0] == b[0] {
      Total(a[1..], b[1..]);
      assert a == [a[0]] + a[1..] && b == [b[0]] + b[1..];
    }
  }

  // ---------- Sorting the whitelist ----------

  function Insert(f: string, fields: seq<string>): seq<string> {
    if fields == [] || !Less(fields[0], f) then [f] + fields
    else [fields[0]] + Insert(f, fields[1..])
  }

  function SortFields(fields: seq<string>): seq<string> {
    if fields == [] then [] else Insert(fields[0], SortFields(fields[1..]))
  }

  lemma {:induction false} InsertElements(f: string, fields: seq<string>, x: string)
    ensures x in Insert(f, fields) <==> x == f || x in fields
    decreases |fields|
  {
    if fields != [] && Less(fields[0], f) {
      InsertElements(f, fields[1..], x);
      assert fields == [fields[0]] + fields[1..];
    }
  }

  lemma {:induction false} NotLessIsTransitive(a: string, b: string, c: string)
    requires !Less(b, a) && !Less(c, b)
    ensures !Less(c, a)
    decreases |a|
  {
    if a != [] && b != [] && c != [] && a[0] == b[0] && b[0] == c[0] {
      NotLessIsTransitive(a[1..], b[1..], c[1..]);
    }
  }

  lemma {:induction false} InsertKeepsSorted(f: string, fields: seq<string>)
    requires Sorted(fields)
    ensures Sorted(Insert(f, fields))
    decreases |fields|
  {
    if fields == [] {
    } else if !Less(fields[0], f) {
      forall i | 0 < i < |fields| ensures !Less(fields[i], f) {
        NotLessIsTransitive(f, fields[0], fields[i]);
      }
    } else {
      var tail := Insert(f, fields[1..]);
      InsertKeepsSorted(f, fields[1..]);
      forall i | 0 <= i < |tail| ensures !Less(tail[i], fields[0]) {
        InsertElements(f, fields[1..], tail[i]);
        if tail[i] == f {
          Asymmetric(fields[0], f);
        }
      }
    }
  }

  /** Sorting keeps the whitelist's columns and puts them in order. */
  lemma {:induction false} SortedFields(fields: seq<string>)
    ensures Sorted(SortFields(fields))
    ensures forall f :: f in SortFields(fields) <==> f in fields
    decreases |fields|
  {
    if fields == [] {
    } else {
      SortedFields(fields[1..]);
      InsertKeepsSorted(fields[0], SortFields(fields[1..]));
      forall f {
        InsertElements(fields[0], SortFields(fields[1..]), f);
      }
      assert fields == [fields[0]] + fields[1..];
    }
  }

  // ---------- Filters ----------

  /** The search that breaks at the first field not below `f` finds `f` iff it is on the whitelist. */
  method IsAllowed(f: string, whitelist: seq<string>) returns (allowed: bool)
    requires Sorted(whitelist)
    ensures allowed <==> f in whitelist
  {
    allowed := false;
    for i := 0 to |whitelist|
      invariant !allowed
      invariant forall j :: 0 <= j < i ==> whitelist[j] != f
    {
      if f == whitelist[i] {
        allowed := true;
      }
      if !Less(whitelist[i], f) {
        if !allowed {
          Total(whitelist[i], f);
          forall j | i < j < |whitelist| ensures whitelist[j] != f {
            GreaterStaysGreater(f, whitelist[i], whitelist[j]);
            Irreflexive(f);
          }
        }
        return;
      }
      Irreflexive(f);
    }
  }

  /** The conditions and parameters of the WHERE clause, or the first column that is not allowed. */
  method BuildFilter(fs: seq<Filter>, whitelist: seq<string>) returns (r: Result<(seq<string>, seq<string>), string>)
    ensures r.Success? <==> forall i :: 0 <= i < |fs| ==> fs[i].field in whitelist
    ensures r.Success? ==> |r.value.0| == |r.value.1| == |fs|
    ensures r.Success? ==> forall i :: 0 <= i < |fs| ==>
      r.value.0[i] == fs[i].field + " = ?" && r.value.1[i] == fs[i].value
    ensures r.Failure? ==> exists i ::
      && 0 <= i < |fs| && r.error == fs[i].field && fs[i].field !in whitelist
      && forall j :: 0 <= j < i ==> fs[j].field in whitelist
  {
    var sorted := SortFields(whitelist);
    SortedFields(whitelist);
    var fields, params := [], [];
    for i := 0 to |fs|
      invariant forall j :: 0 <= j < i ==> fs[j].field in whitelist
      invariant |fields| == |params| == i
      invariant forall j :: 0 <= j < i ==> fields[j] == fs[j].field + " = ?" && params[j] == fs[j].value
    {
      var allowed := IsAllowed(fs[i].field, sorted);
      if !allowed {
        return Failure(fs[i].field);
      }
      fields, params := fields + [fs[i].field + " = ?"], params + [fs[i].value];
    }
    return Success((fields, params));
  }
}

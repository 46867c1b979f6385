/** Node feature discovery: the label store fed by SetLabels, its reading as a map, and the admission of applications
    by their required features. */
module NodeFeatures {
  import opened Wrappers

  /** A row of nodes_nfd_features; the table maps row IDs to rows. */
  datatype Row = Row(node: string, nfdId: string, value: string)

  type Table = map<nat, Row>

  datatype Error = PeerUnknown | PeerMismatch | FilterError | WriteError

  // ---------- The store ----------

  /** `order` is an iteration order of the keys of `labels`. */
  ghost predicate Iterates(order: seq<string>, labels: map<string, string>) {
    && (forall l :: l in order <==> l in labels)
    && (forall i, j :: 0 <= i < j < |order| ==> order[i] != order[j])
  }

  /** How far the loop gets: up to the first label whose query fails. */
  function Reached(order: seq<string>, filterFails: set<string>): (k: nat)
    ensures k <= |order|
    ensures forall i :: 0 <= i < k ==> order[i] !in filterFails
    ensures k < |order| ==> order[k] in filterFails
  {
    if order == [] || order[0] in filterFails then 0 else 1 + Reached(order[1..], filterFails)
  }

  /** The labels among the first `k` whose write is not lost. */
  function Stored(order: seq<string>, k: nat, labels: map<string, string>, lost: set<string>): map<string, string>
    requires k <= |order|
  {
    map l | l in labels && l in order[..k] && l !in lost :: labels[l]
  }

  /** One SetLabels call: who calls, for which node, with what, in which iteration order, and what fails. A write that is
      answered with an error may have taken effect. */
  datatype Call = Call(peer: Option<string>, node: string, labels: map<string, string>, order: seq<string>,
                       filterFails: set<string>, writeFails: set<string>, tookEffect: set<string>)

  /** The labels whose write takes no effect. */
  function Lost(call: Call): set<string> {
    call.writeFails - call.tookEffect
  }

  /** The labels a call stores for its node. */
  function StoredBy(call: Call): map<string, string> {
    if call.peer == Some(call.node)
    then Stored(call.order, Reached(call.order, call.filterFails), call.labels, Lost(call)) else map[]
  }

  /** The last write of a call is answered with an error. */
  predicate LastWriteFails(call: Call) {
    call.order != [] && call.order[|call.order| - 1] in call.writeFails
  }

  /** Whether a call reports an error. */
  predicate Reports(call: Call) {
    || call.peer != Some(call.node)
    || Reached(call.order, call.filterFails) < |call.order|
    || LastWriteFails(call)
  }

  /** The value a call stores for one label of one node, if it does. */
  function Writes(call: Call, node: string, nfdId: string): Option<string> {
    if call.node == node && nfdId in StoredBy(call) then Some(StoredBy(call)[nfdId]) else None
  }

  /** A call stores a value for a label iff it comes from the node, has that value for it, its query and those before it in
      the iteration succeed, and its write takes effect. */
  lemma WritesExactly(call: Call, node: string, nfdId: string, value: string)
    requires Iterates(call.order, call.labels)
    ensures Writes(call, node, nfdId) == Some(value) <==>
      && call.node == node && call.peer == Some(node) && nfdId in call.labels && call.labels[nfdId] == value
      && (nfdId !in call.writeFails || nfdId in call.tookEffect)
      && exists i :: 0 <= i < |call.order| && call.order[i] == nfdId &&
                     forall j :: 0 <= j <= i ==> call.order[j] !in call.filterFails
  {
    var k := Reached(call.order, call.filterFails);
    if nfdId in call.order[..k] {
      var i :| 0 <= i < k && call.order[i] == nfdId;
      assert forall j :: 0 <= j <= i ==> call.order[j] !in call.filterFails;
    }
    if i :| 0 <= i < |call.order| && call.order[i] == nfdId &&
            forall j :: 0 <= j <= i ==> call.order[j] !in call.filterFails {
      assert i < k;
      assert call.order[..k][i] == nfdId;
    }
  }

  /** The value last stored for one label of one node over a run. */
  function LastStored(before: Option<string>, calls: seq<Call>, node: string, nfdId: string): Option<string> {
    if calls == [] then before else
      match Writes(calls[|calls| - 1], node, nfdId)
      case Some(value) => Some(value)
      case None => LastStored(before, calls[..|calls| - 1], node, nfdId)
  }

  class Store {
    var table: Table
    var nextId: nat
    /** The row of each node and label. */
    ghost var index: map<(string, string), nat>

    /** `index` is exact in both directions, so there is at most one row per node and label. */
    ghost predicate Valid()
      reads this
    {
      && (forall key :: key in index ==> index[key] in table && (table[index[key]].node, table[index[key]].nfdId) == key)
      && (forall i :: i in table ==> Indexed(i) && i < nextId)
    }

    ghost predicate Indexed(i: nat)
      requires i in table
      reads this
    {
      var key := (table[i].node, table[i].nfdId);
      key in index && index[key] == i
    }

    /** The store read as a map from nodes and labels to values. */
    ghost function Lookup(node: string, nfdId: string): Option<string>
      requires Valid()
      reads this
    {
      if (node, nfdId) in index then Some(table[index[(node, nfdId)]].value) else None
    }

    /** At most one row per node and label, and Lookup reads it. */
    lemma OneRowPerLabel(i: nat, j: nat)
      requires Valid() && i in table && j in table
      ensures table[i].node == table[j].node && table[i].nfdId == table[j].nfdId ==> i == j
      ensures Lookup(table[i].node, table[i].nfdId) == Some(table[i].value)
    {
      assert Indexed(i) && Indexed(j);
    }

    constructor ()
      ensures Valid() && table == map[]
      ensures forall node, nfdId :: Lookup(node, nfdId) == None
    {
      table, nextId, index := map[], 0, map[];
    }

    predicate Matches(i: nat, node: string, nfdId: Option<string>)
      requires i in table
      reads this
    {
      table[i].node == node && (nfdId.Some? ==> table[i].nfdId == nfdId.value)
    }

    /** The rows that match, in any order. */
    method Filter(node: string, nfdId: Option<string>) returns (ids: seq<nat>)
      ensures forall i :: i in ids <==> i in table && Matches(i, node, nfdId)
    {
      ids := [];
      var todo := table.Keys;
      while todo != {}
        invariant todo <= table.Keys
        invariant forall i :: i in ids <==> i in table && i !in todo && Matches(i, node, nfdId)
      {
        var i :| i in todo;
        todo := todo - {i};
        if Matches(i, node, nfdId) {
          ids := ids + [i];
        }
      }
    }

    /** The body of the loop for one label: create its row or overwrite it. */
    method Upsert(node: string, nfdId: string, value: string)
      requires Valid()
      modifies this
      ensures Valid()
      ensures forall n, l :: Lookup(n, l) == if n == node && l == nfdId then Some(value) else old(Lookup(n, l))
    {
      var found := Filter(node, Some(nfdId));
      if found == [] {
        assert (node, nfdId) !in index by {
          if (node, nfdId) in index {
            assert Matches(index[(node, nfdId)], node, Some(nfdId));
          }
        }
        table := table[nextId := Row(node, nfdId, value)];
        index := index[(node, nfdId) := nextId];
        nextId := nextId + 1;
      } else {
        var id := found[0];
        assert id in found && Matches(id, node, Some(nfdId)) && Indexed(id);
        table := table[id := Row(node, nfdId, value)];
      }
    }

    /** Whatever the iteration order and whatever fails, the node's map is overridden by exactly the labels that were
        reached and written; the error of a failed write is reported only if it was the last one. */
    method SetLabels(call: Call) returns (result: Outcome<Error>)
      requires Valid() && Iterates(call.order, call.labels)
      modifies this
      ensures Valid()
      ensures call.peer != Some(call.node) ==>
        table == old(table) && result == Fail(if call.peer.None? then PeerUnknown else PeerMismatch)
      ensures forall n, l ::
        Lookup(n, l) == if n == call.node && l in StoredBy(call) then Some(StoredBy(call)[l]) else old(Lookup(n, l))
      ensures result.Fail? <==> Reports(call)
      ensures call.peer == Some(call.node) && result.Fail? ==>
        result == Fail(if Reached(call.order, call.filterFails) < |call.order| then FilterError else WriteError)
    {
      if call.peer.None? {
        return Fail(PeerUnknown);
      }
      if call.peer.value != call.node {
        return Fail(PeerMismatch);
      }
      result := StoreLabels(call);
    }

    /** The loop over the labels. */
    method StoreLabels(call: Call) returns (result: Outcome<Error>)
      requires Valid() && Iterates(call.order, call.labels)
      modifies this
      ensures Valid()
      ensures var stored := Stored(call.order, Reached(call.order, call.filterFails), call.labels, Lost(call));
        forall n, l :: Lookup(n, l) == if n == call.node && l in stored then Some(stored[l]) else old(Lookup(n, l))
      ensures result ==
        if Reached(call.order, call.filterFails) < |call.order| then Fail(FilterError)
        else if LastWriteFails(call) then Fail(WriteError) else Pass
    {
      var Call(_, node, labels, order, filterFails, writeFails, tookEffect) := call;
      result := Pass;
      ghost var reached := Reached(order, filterFails);
      ghost var stored := Stored(order, 0, labels, Lost(call));
      for i := 0 to |order|
        invariant Valid()
        invariant i <= reached && stored == Stored(order, i, labels, Lost(call))
        invariant forall n, l ::
          Lookup(n, l) == if n == node && l in stored then Some(stored[l]) else old(Lookup(n, l))
        invariant result == if i > 0 && order[i - 1] in writeFails then Fail(WriteError) else Pass
      {
        var nfdId := order[i];
        assert nfdId in order;
        if nfdId in filterFails {
          return Fail(FilterError);
        }
        StoredStep(order, i, labels, Lost(call));
        stored := Stored(order, i + 1, labels, Lost(call));
        if nfdId !in writeFails || nfdId in tookEffect {
          Upsert(node, nfdId, labels[nfdId]);
        }
        result := if nfdId in writeFails then Fail(WriteError) else Pass;
      }
    }

    /** Any run of SetLabels calls, of any nodes and with any failures. */
    method Serve(calls: seq<Call>)
      requires Valid() && forall i :: 0 <= i < |calls| ==> Iterates(calls[i].order, calls[i].labels)
      modifies this
      ensures Valid()
      ensures forall n, l :: Lookup(n, l) == LastStored(old(Lookup(n, l)), calls, n, l)
    {
      for i := 0 to |calls|
        invariant Valid()
        invariant forall n, l :: Lookup(n, l) == LastStored(old(Lookup(n, l)), calls[..i], n, l)
      {
        var _ := SetLabels(calls[i]);
        assert calls[..i + 1][..i] == calls[..i];
      }
      assert calls[..|calls|] == calls;
    }

    /** The rows of a node, folded into a map, whatever order they come in, unless the query fails. */
    method GetNfdFeatures(node: string, queryFails: bool) returns (result: Option<map<string, string>>)
      requires Valid()
      ensures result == None <==> queryFails
      ensures result.Some? ==>
        forall l :: Lookup(node, l) == if l in result.value then Some(result.value[l]) else None
    {
      if queryFails {
        return None;
      }
      var features := Fold(node);
      result := Some(features);
    }

    method Fold(node: string) returns (features: map<string, string>)
      requires Valid()
      ensures forall l :: Lookup(node, l) == if l in features then Some(features[l]) else None
    {
      var found := Filter(node, None);
      features := map[];
      for k := 0 to |found|
        invariant forall l :: l in features ==> Lookup(node, l) == Some(features[l])
        invariant forall j :: 0 <= j < k ==> table[found[j]].nfdId in features
      {
        assert found[k] in found && Matches(found[k], node, None) && Indexed(found[k]);
        features := features[table[found[k]].nfdId := table[found[k]].value];
      }
      forall l | Lookup(node, l).Some? ensures l in features {
        var i := index[(node, l)];
        assert Matches(i, node, None) && i in found;
      }
    }
  }

  lemma StoredStep(order: seq<string>, i: nat, labels: map<string, string>, lost: set<string>)
    requires i < |order| && order[i] in labels
    ensures Stored(order, i + 1, labels, lost) ==
      if order[i] in lost then Stored(order, i, labels, lost)
      else Stored(order, i, labels, lost)[order[i] := labels[order[i]]]
  {
    assert order[..i + 1] == order[..i] + [order[i]];
  }

  /** Without errors a call stores all its labels, in any iteration order. */
  lemma NoErrorsStoreAll(order: seq<string>, labels: map<string, string>)
    requires Iterates(order, labels)
    ensures Stored(order, Reached(order, {}), labels, {}) == labels
  {
    assert order[..|order|] == order;
  }

  lemma StoresAllIff(call: Call)
    requires Iterates(call.order, call.labels)
    ensures StoredBy(call) == call.labels <==>
      if call.peer != Some(call.node) then call.labels == map[]
      else Reached(call.order, call.filterFails) == |call.order| && forall l <- call.labels :: l !in Lost(call)
  {
    var k := Reached(call.order, call.filterFails);
    if k < |call.order| {
      var l := call.order[k];
      assert l in call.order && l !in call.order[..k];
    } else {
      assert call.order[..k] == call.order;
      assert forall l <- call.labels :: l in call.order;
      if call.peer == Some(call.node) && forall l <- call.labels :: l !in Lost(call) {
        assert StoredBy(call).Keys == call.labels.Keys;
      }
    }
  }

  /** A call is meant to report an error iff it did not store everything. From a foreign peer it does so iff there is
      something to store; if a query fails it always does; otherwise it does iff its last write is answered with an error
      just when some write is lost. */
  lemma ReportExactly(call: Call)
    requires Iterates(call.order, call.labels)
    ensures (Reports(call) <==> StoredBy(call) != call.labels) <==>
      if call.peer != Some(call.node) then call.labels != map[]
      else Reached(call.order, call.filterFails) < |call.order| ||
           (LastWriteFails(call) <==> exists l <- call.labels :: l in Lost(call))
  {
    StoresAllIff(call);
  }

  /** A write is lost and not reported, because a later one succeeds. */
  const LOSING_CALL := Call(Some("n"), "n", map["a" := "1", "b" := "2"], ["a", "b"], {}, {"a"}, {})

  /** Everything is stored and yet an error reported, because the answer to the last write got lost. */
  const ALARMING_CALL := Call(Some("n"), "n", map["a" := "1"], ["a"], {}, {"a"}, {"a"})

  lemma ReportsCanBeWrong()
    ensures Iterates(LOSING_CALL.order, LOSING_CALL.labels) && Iterates(ALARMING_CALL.order, ALARMING_CALL.labels)
    ensures !Reports(LOSING_CALL) && "a" in LOSING_CALL.labels && "a" !in StoredBy(LOSING_CALL)
    ensures Reports(ALARMING_CALL) && StoredBy(ALARMING_CALL) == ALARMING_CALL.labels
  {
    StoresAllIff(ALARMING_CALL);
  }

  // ---------- Admission ----------

  datatype EPAFeature = EPAFeature(key: string, value: string)

  function ToLower(c: char): char {
    if 'A' <= c <= 'Z' then (c as int + 32) as char else c
  }

  /** The label and value a feature requires, if it is a well-formed "nfd:" requirement. */
  function Required(f: EPAFeature): Option<(string, string)> {
    if |f.key| > 4 && f.value != "" && seq(4, i requires 0 <= i < 4 => ToLower(f.key[i])) == "nfd:"
    then Some((f.key[4..], f.value)) else None
  }

  /** Exactly "nfd:", in any case, followed by a label, with a value, requires something: that label to have that value. */
  lemma RequiredExactly(f: EPAFeature, nfdId: string, value: string)
    ensures Required(f) == Some((nfdId, value)) <==>
      && nfdId != "" && value != "" && f.value == value && |f.key| == 4 + |nfdId| && f.key[4..] == nfdId
      && (f.key[0] == 'n' || f.key[0] == 'N') && (f.key[1] == 'f' || f.key[1] == 'F')
      && (f.key[2] == 'd' || f.key[2] == 'D') && f.key[3] == ':'
  {
    if |f.key| >= 4 {
      var prefix := seq(4, i requires 0 <= i < 4 => ToLower(f.key[i]));
      assert prefix == "nfd:" <==>
             prefix[0] == 'n' && prefix[1] == 'f' && prefix[2] == 'd' && prefix[3] == ':';
    }
  }

  predicate Admitted(required: seq<EPAFeature>, features: map<string, string>) {
    forall i :: 0 <= i < |required| && Required(required[i]).Some? ==>
      var (nfdId, value) := Required(required[i]).value;
      nfdId in features && features[nfdId] == value
  }

  method EPAValidate(required: seq<EPAFeature>, features: map<string, string>) returns (ok: bool)
    ensures ok <==> Admitted(required, features)
  {
    for i := 0 to |required|
      invariant Admitted(required[..i], features)
    {
      var f := required[i];
      if f.key == "" || f.value == "" || |f.key| < 4 {
        assert Required(f).None?;
        continue;
      }
      var prefix := seq(4, j requires 0 <= j < 4 => ToLower(f.key[j]));
      var epaKey := f.key[4..];
      if prefix != "nfd:" || |epaKey| == 0 {
        assert Required(f).None?;
        continue;
      }
      assert Required(f) == Some((epaKey, f.value));
      if epaKey !in features || features[epaKey] != f.value {
        return false;
      }
    }
    assert required[..|required|] == required;
    return true;
  }

  // ---------- Admission after any run ----------

  predicate Stores(call: Call, node: string, nfdId: string) {
    Writes(call, node, nfdId).Some?
  }

  /** Call `i` is the last to store the label. */
  predicate StoresLast(calls: seq<Call>, i: nat, node: string, nfdId: string) {
    i < |calls| && Stores(calls[i], node, nfdId) && forall j :: i < j < |calls| ==> !Stores(calls[j], node, nfdId)
  }

  predicate NeverStored(calls: seq<Call>, node: string, nfdId: string) {
    forall j :: 0 <= j < |calls| ==> !Stores(calls[j], node, nfdId)
  }

  /** The last call that stores a label decides its value. */
  lemma {:induction false} LastStoreDecides(
      before: Option<string>, calls: seq<Call>, i: nat, node: string, nfdId: string)
    requires StoresLast(calls, i, node, nfdId)
    ensures LastStored(before, calls, node, nfdId) == Writes(calls[i], node, nfdId)
    decreases |calls|
  {
    var n := |calls| - 1;
    if i < n {
      var front := calls[..n];
      assert front[i] == calls[i];
      LastStoreDecides(before, front, i, node, nfdId);
    }
  }

  /** A label that no call stores keeps its value. */
  lemma {:induction false} NeverStoredStays(before: Option<string>, calls: seq<Call>, node: string, nfdId: string)
    requires NeverStored(calls, node, nfdId)
    ensures LastStored(before, calls, node, nfdId) == before
    decreases |calls|
  {
    if calls == [] {
    } else {
      NeverStoredStays(before, calls[..|calls| - 1], node, nfdId);
    }
  }

  lemma LastTrue(marks: seq<bool>) returns (i: nat)
    requires true in marks
    ensures i < |marks| && marks[i] && forall j :: i < j < |marks| ==> !marks[j]
  {
    i := |marks| - 1;
    while !marks[i]
      invariant i < |marks| && forall j :: i < j < |marks| ==> !marks[j]
      decreases i
    {
      i := i - 1;
    }
  }

  /** If any call stores a label, one is the last that does. */
  lemma SomeStoreDecides(calls: seq<Call>, node: string, nfdId: string) returns (i: nat)
    requires !NeverStored(calls, node, nfdId)
    ensures StoresLast(calls, i, node, nfdId)
  {
    var marks := seq(|calls|, j requires 0 <= j < |calls| => Stores(calls[j], node, nfdId));
    var k :| 0 <= k < |calls| && Stores(calls[k], node, nfdId);
    assert marks[k];
    i := LastTrue(marks);
    assert forall j :: 0 <= j < |calls| ==> marks[j] == Stores(calls[j], node, nfdId);
  }

  /** After any run of SetLabels calls an application is admitted to a node iff each of its well-formed requirements
      equals the value last stored for that node and label. If the node's labels cannot be read it is not. */
  method AdmissionAfterAnyRun(calls: seq<Call>, node: string, required: seq<EPAFeature>, queryFails: bool)
    returns (ok: bool)
    requires forall i :: 0 <= i < |calls| ==> Iterates(calls[i].order, calls[i].labels)
    ensures ok <==> !queryFails && forall i :: 0 <= i < |required| && Required(required[i]).Some? ==>
      var (nfdId, value) := Required(required[i]).value;
      LastStored(None, calls, node, nfdId) == Some(value)
  {
    var store := new Store();
    store.Serve(calls);
    var features := store.GetNfdFeatures(node, queryFails);
    if features == None {
      return false;
    }
    ok := EPAValidate(required, features.value);
  }
}

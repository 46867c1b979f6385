/** The controller's request handlers over the persistence service. Requests are served one at a time; each database
    call and each call to a node may fail. */
module Handlers {
  import opened Tables
  import opened Persistence
  import opened Cascade
  import opened Wrappers

  datatype Reply = Fulfilled | NotFound | InUse | BadRequest | NotImplemented | Internal

  /** Replies that turn a request away; an internal error may leave it half done. */
  predicate Refused(reply: Reply) {
    reply.NotFound? || reply.InUse? || reply.BadRequest? || reply.NotImplemented?
  }

  // ---------- Entities ----------

  datatype Entity = NodeEntity | AppEntity | PolicyEntity

  function Insertion(entity: Entity, id: Id): Op {
    match entity
    case NodeEntity => InsertNode(id)
    case AppEntity => InsertApp(id)
    case PolicyEntity => InsertPolicy(id)
  }

  /** POST of a node, an application or a policy. `valid` is the verdict on the payload. */
  method Post(db: Db, entity: Entity, valid: bool) returns (reply: Reply)
    requires db.Valid()
    modifies db
    ensures db.Progress()
    ensures Refused(reply) ==> db.tables == old(db.tables)
    ensures reply.Fulfilled? ==>
      && Unused(old(db.tables), old(db.next))
      && db.tables == match entity
                      case NodeEntity => old(db.tables).(nodes := old(db.tables).nodes + {old(db.next)})
                      case AppEntity => old(db.tables).(apps := old(db.tables).apps + {old(db.next)})
                      case PolicyEntity => old(db.tables).(policies := old(db.tables).policies + {old(db.next)})
    ensures NoErrors(db.fate, old(db.calls), db.calls) ==> reply == if valid then Fulfilled else BadRequest
  {
    if !valid {
      return BadRequest;
    }
    var id := db.NewId();
    var ok, affected := db.Write(Insertion(entity, id));
    reply := if ok then Fulfilled else Internal;
  }

  predicate AppInUse(t: Tables, app: Id) {
    (exists i <- t.aliases :: t.aliases[i].app == app) || (exists i <- t.nodeApps :: t.nodeApps[i].app == app)
  }

  method DeleteAppById(db: Db, app: Id) returns (reply: Reply)
    requires db.Valid()
    modifies db
    ensures db.Progress()
    ensures Refused(reply) ==> db.tables == old(db.tables)
    ensures reply.Fulfilled? ==> db.tables == old(db.tables).(apps := old(db.tables).apps - {app})
    ensures reply.Fulfilled? ==>
      && app in old(db.tables).apps && (forall i <- old(db.tables).aliases :: old(db.tables).aliases[i].app != app)
      && forall i <- old(db.tables).nodeApps :: old(db.tables).nodeApps[i].app != app
    ensures reply.InUse? ==>
      || (exists i <- old(db.tables).aliases :: old(db.tables).aliases[i].app == app)
      || (exists i <- old(db.tables).nodeApps :: old(db.tables).nodeApps[i].app == app)
    ensures NoErrors(db.fate, old(db.calls), db.calls) ==>
      reply == if AppInUse(old(db.tables), app) then InUse else if app !in old(db.tables).apps then NotFound else Fulfilled
  {
    var ok := db.Query();
    if !ok {
      return Internal;
    }
    if exists i <- db.tables.aliases :: db.tables.aliases[i].app == app {
      return InUse;
    }
    ok := db.Query();
    if !ok {
      return Internal;
    }
    if exists i <- db.tables.nodeApps :: db.tables.nodeApps[i].app == app {
      return InUse;
    }
    ok := db.Query();
    if !ok {
      return Internal;
    }
    if app !in db.tables.apps {
      return NotFound;
    }
    var affected;
    ok, affected := db.Write(DeleteApp(app));
    reply := if ok && affected then Fulfilled else Internal;
  }

  predicate PolicyInUse(t: Tables, policy: Id) {
    exists i <- t.nodeAppPolicies :: t.nodeAppPolicies[i].policy == policy
  }

  method DeletePolicyById(db: Db, policy: Id) returns (reply: Reply)
    requires db.Valid()
    modifies db
    ensures db.Progress()
    ensures Refused(reply) ==> db.tables == old(db.tables)
    ensures reply.Fulfilled? ==> db.tables == old(db.tables).(policies := old(db.tables).policies - {policy})
    ensures reply.Fulfilled? ==>
      && policy in old(db.tables).policies
      && forall i <- old(db.tables).nodeAppPolicies :: old(db.tables).nodeAppPolicies[i].policy != policy
    ensures reply.InUse? ==>
      exists i <- old(db.tables).nodeAppPolicies :: old(db.tables).nodeAppPolicies[i].policy == policy
    ensures NoErrors(db.fate, old(db.calls), db.calls) ==>
      reply == if PolicyInUse(old(db.tables), policy) then InUse
               else if policy !in old(db.tables).policies then NotFound else Fulfilled
  {
    var ok := db.Query();
    if !ok {
      return Internal;
    }
    if PolicyInUse(db.tables, policy) {
      return InUse;
    }
    ok := db.Query();
    if !ok {
      return Internal;
    }
    if policy !in db.tables.policies {
      return NotFound;
    }
    var affected;
    ok, affected := db.Write(DeletePolicy(policy));
    reply := if ok && affected then Fulfilled else Internal;
  }

  // ---------- DNS ----------

  /** Removes a node's DNS data, if any: association, aliases, configuration. `remote` tells whether the node
      answers. */
  method DnsDelete(db: Db, node: Id, remote: bool) returns (failed: bool)
    requires db.Valid()
    modifies db
    ensures db.Progress() && db.next == old(db.next)
    ensures !failed ==> db.tables == WithoutDns(old(db.tables), node)
    ensures NoErrors(db.fate, old(db.calls), db.calls) ==> (failed <==> !remote && DnsOfNode(old(db.tables), node) != {})
    ensures NoErrors(db.fate, old(db.calls), db.calls) && failed ==> db.tables == old(db.tables)
  {
    var ok := db.Query();
    if !ok {
      return true;
    }
    var found := db.Rows(DnsOfNode(db.tables, node));
    if found == [] {
      assert DnsOfNode(db.tables, node) == {};
      NothingToDo(db.tables, node);
      return false;
    }
    var row := found[0];
    assert row in found;
    var config := db.tables.nodeDns[row].config;
    ok := db.Query();
    if !ok {
      return true;
    }
    ok := db.Query();
    if !ok {
      return true;
    }
    var aliases := db.Rows(AliasesOf(db.tables, config));
    if !remote {
      return true;
    }
    failed := DeleteDns(db, row, config, aliases);
    if !failed {
      DnsRemoved(old(db.tables), node, row);
    }
  }

  /** The alias rows of a new configuration, numbered from `first`. */
  function AliasRows(first: Id, config: Id, apps: seq<Id>): map<Id, Alias> {
    if apps == [] then map[] else
      var n := |apps| - 1;
      AliasRows(first, config, apps[..n])[first + n := Alias(config, apps[n])]
  }

  /** Alias number `i` names application number `i`, and there are no others. */
  lemma {:induction false} AliasRowsExactly(first: Id, config: Id, apps: seq<Id>)
    ensures forall id :: id in AliasRows(first, config, apps) <==> first <= id < first + |apps|
    ensures forall i :: 0 <= i < |apps| ==> AliasRows(first, config, apps)[first + i] == Alias(config, apps[i])
    decreases |apps|
  {
    if apps == [] {
    } else {
      AliasRowsExactly(first, config, apps[..|apps| - 1]);
    }
  }

  function Aliased(aliases: map<Id, Alias>, first: Id, config: Id, apps: seq<Id>): map<Id, Alias> {
    aliases + AliasRows(first, config, apps)
  }

  /** The tables with an association and the aliases of its configuration, which are numbered from `first`. */
  function WithDnsRows(t: Tables, id: Id, row: NodeDns, apps: seq<Id>, first: Id): Tables {
    t.(aliases := Aliased(t.aliases, first, row.config, apps), nodeDns := t.nodeDns[id := row])
  }

  /** The tables with a new DNS configuration for a node; its rows are numbered from `first`. */
  function WithDns(t: Tables, node: Id, apps: seq<Id>, first: Id): Tables {
    WithDnsRows(Apply(t, InsertDnsConfig(first)), first + 1, NodeDns(node, first), apps, first + 2)
  }

  /** The body of a PATCH of DNS data: the applications its aliases name, or one that does not decode or validate, or
      one with forwarders, which are not supported. */
  datatype DnsPayload = Aliases(apps: seq<Id>) | Malformed | Forwarders

  /** Creates a node's DNS data: configuration, aliases, association. `taken` tells whether the node takes it. */
  method DnsCreate(db: Db, node: Id, payload: DnsPayload, taken: bool) returns (reply: Reply)
    requires db.Valid() && node in db.tables.nodes
    requires forall i <- db.tables.nodeDns :: db.tables.nodeDns[i].node != node
    modifies db
    ensures db.Progress()
    ensures reply.Fulfilled? ==>
      payload.Aliases? && db.tables == WithDns(old(db.tables), node, payload.apps, old(db.next))
    ensures reply.BadRequest? <==> payload.Malformed?
    ensures reply.NotImplemented? <==> payload.Forwarders?
    ensures !payload.Aliases? || !taken ==> db.tables == old(db.tables)
    ensures reply.Fulfilled? || reply.BadRequest? || reply.NotImplemented? || reply.Internal?
    ensures NoErrors(db.fate, old(db.calls), db.calls) ==> (reply.Fulfilled? <==> payload.Aliases? && taken)
  {
    if payload.Malformed? {
      return BadRequest;
    }
    if payload.Forwarders? {
      return NotImplemented;
    }
    var config := db.NewId();
    var row := db.NewId();
    if !taken {
      return Internal;
    }
    var failed := CreateDnsConfig(db, config, row, node, payload.apps);
    assert config == old(db.next) && row == config + 1;
    reply := if failed then Internal else Fulfilled;
  }

  method CreateDnsConfig(db: Db, config: Id, row: Id, node: Id, apps: seq<Id>) returns (failed: bool)
    requires db.Valid() && node in db.tables.nodes && row == config + 1 && db.next == row + 1
    requires Unused(db.tables, config) && Unused(db.tables, row)
    requires forall i <- db.tables.nodeDns :: db.tables.nodeDns[i].node != node
    modifies db
    ensures db.Progress()
    ensures !failed ==> db.tables == WithDns(old(db.tables), node, apps, config)
    ensures NoErrors(db.fate, old(db.calls), db.calls) ==> !failed
  {
    var ok, affected := db.Write(InsertDnsConfig(config));
    if !ok {
      return true;
    }
    ghost var after := WithDnsRows(db.tables, row, NodeDns(node, config), apps, db.next);
    assert after == WithDns(old(db.tables), node, apps, config);
    failed := CreateDnsRows(db, row, NodeDns(node, config), apps);
  }

  /** The new aliases name the applications in order, and the old ones are as they were. */
  lemma AliasedExactly(aliases: map<Id, Alias>, first: Id, config: Id, apps: seq<Id>)
    requires forall id <- aliases :: id < first
    ensures var after := Aliased(aliases, first, config, apps);
      && (forall id :: id in after <==> id in aliases || first <= id < first + |apps|)
      && (forall i :: 0 <= i < |apps| ==> after[first + i] == Alias(config, apps[i]))
      && (forall id <- aliases :: after[id] == aliases[id])
  {
    AliasRowsExactly(first, config, apps);
  }

  /** The rows a PATCH of DNS data leaves: for the node one association with one new configuration, whose aliases name the
      applications of the body in order; all other rows are as they were. */
  lemma PatchedDnsExactly(t: Tables, node: Id, apps: seq<Id>, first: Id)
    requires DnsOfNode(t, node) == {} && Below(t, first)
    ensures var after := WithDns(t, node, apps, first);
      && DnsOfNode(after, node) == {first + 1} && after.nodeDns == t.nodeDns[first + 1 := NodeDns(node, first)]
      && after.dnsConfigs == t.dnsConfigs + {first} && first !in t.dnsConfigs
      && (forall id :: id in after.aliases <==> id in t.aliases || first + 2 <= id < first + 2 + |apps|)
      && (forall i :: 0 <= i < |apps| ==> after.aliases[first + 2 + i] == Alias(first, apps[i]))
      && (forall id <- t.aliases :: after.aliases[id] == t.aliases[id])
  {
    assert first !in IdsInUse(t);
    assert forall id <- t.aliases :: id in IdsInUse(t);
    assert forall i <- t.nodeDns :: i !in DnsOfNode(t, node);
    AliasedExactly(t.aliases, first + 2, first, apps);
  }

  method CreateDnsRows(db: Db, id: Id, row: NodeDns, apps: seq<Id>) returns (failed: bool)
    requires db.Valid() && row.node in db.tables.nodes && row.config in db.tables.dnsConfigs
    requires id < db.next && id !in db.tables.nodeDns && id !in db.tables.dnsConfigs
    requires forall i <- db.tables.nodeDns ::
      db.tables.nodeDns[i].node != row.node && db.tables.nodeDns[i].config != row.config
    modifies db
    ensures db.Progress()
    ensures !failed ==> db.tables == WithDnsRows(old(db.tables), id, row, apps, old(db.next))
    ensures NoErrors(db.fate, old(db.calls), db.calls) ==> !failed
  {
    failed := CreateAliases(db, row.config, apps);
    if failed {
      return;
    }
    failed := CreateAssociation(db, id, row);
  }

  method CreateAssociation(db: Db, id: Id, row: NodeDns) returns (failed: bool)
    requires db.Valid() && row.node in db.tables.nodes && row.config in db.tables.dnsConfigs
    requires id < db.next && id !in db.tables.nodeDns && id !in db.tables.dnsConfigs
    requires forall i <- db.tables.nodeDns ::
      db.tables.nodeDns[i].node != row.node && db.tables.nodeDns[i].config != row.config
    modifies db
    ensures db.Progress()
    ensures !failed ==> db.tables == old(db.tables).(nodeDns := old(db.tables).nodeDns[id := row])
    ensures NoErrors(db.fate, old(db.calls), db.calls) ==> !failed
  {
    var ok, affected := db.Write(InsertNodeDns(id, row));
    failed := !ok;
  }

  lemma NextAlias(aliases: map<Id, Alias>, first: Id, config: Id, apps: seq<Id>, k: nat)
    requires k < |apps|
    ensures Aliased(aliases, first, config, apps[..k])[first + k := Alias(config, apps[k])]
         == Aliased(aliases, first, config, apps[..k + 1])
  {
    assert apps[..k + 1][..k] == apps[..k];
  }

  method CreateAlias(db: Db, row: Alias) returns (failed: bool)
    requires db.Valid() && row.config in db.tables.dnsConfigs
    modifies db
    ensures db.Progress() && db.next == old(db.next) + 1
    ensures !failed ==> db.tables == old(db.tables).(aliases := old(db.tables).aliases[old(db.next) := row])
    ensures NoErrors(db.fate, old(db.calls), db.calls) ==> !failed
  {
    var id := db.NewId();
    var ok, affected := db.Write(InsertAlias(id, row));
    failed := !ok;
  }

  method CreateAliases(db: Db, config: Id, apps: seq<Id>) returns (failed: bool)
    requires db.Valid() && config in db.tables.dnsConfigs
    modifies db
    ensures db.Progress() && old(db.next) <= db.next
    ensures !failed ==>
      db.tables == old(db.tables).(aliases := Aliased(old(db.tables).aliases, old(db.next), config, apps))
    ensures NoErrors(db.fate, old(db.calls), db.calls) ==> !failed
  {
    ghost var t, first := db.tables, db.next;
    assert Aliased(t.aliases, first, config, apps[..0]) == t.aliases;
    for k := 0 to |apps|
      invariant db.Progress() && db.next == first + k
      invariant db.tables == t.(aliases := Aliased(t.aliases, first, config, apps[..k]))
    {
      failed := CreateAlias(db, Alias(config, apps[k]));
      if failed {
        return;
      }
      NextAlias(t.aliases, first, config, apps, k);
    }
    assert apps[..|apps|] == apps;
    return false;
  }

  /** PATCH /nodes/{node_id}/dns replaces the node's DNS data. The old data is removed first, so a body that is then
      refused, or that the node does not take, leaves the node without any. */
  method PatchNodeDns(db: Db, node: Id, payload: DnsPayload, remote: bool, taken: bool) returns (reply: Reply)
    requires db.Valid()
    modifies db
    ensures db.Progress()
    ensures reply.Fulfilled? ==>
      payload.Aliases? && db.tables == WithDns(WithoutDns(old(db.tables), node), node, payload.apps, old(db.next))
    ensures reply.NotFound? ==> node !in old(db.tables).nodes && db.tables == old(db.tables)
    ensures reply.BadRequest? || reply.NotImplemented? ==>
      !payload.Aliases? && node in old(db.tables).nodes && db.tables == WithoutDns(old(db.tables), node)
    ensures !reply.InUse?
    ensures NoErrors(db.fate, old(db.calls), db.calls) && reply.Internal? ==>
      db.tables == if remote || DnsOfNode(old(db.tables), node) == {} then WithoutDns(old(db.tables), node)
                   else old(db.tables)
    ensures NoErrors(db.fate, old(db.calls), db.calls) ==>
      reply == if node !in old(db.tables).nodes then NotFound
               else if !remote && DnsOfNode(old(db.tables), node) != {} then Internal
               else if payload.Malformed? then BadRequest
               else if payload.Forwarders? then NotImplemented
               else if taken then Fulfilled else Internal
  {
    var ok := db.Query();
    if !ok {
      return Internal;
    }
    if node !in db.tables.nodes {
      return NotFound;
    }
    var failed := DnsDelete(db, node, remote);
    if failed {
      return Internal;
    }
    reply := DnsCreate(db, node, payload, taken);
  }

  method DeleteNodeDns(db: Db, node: Id, remote: bool) returns (reply: Reply)
    requires db.Valid()
    modifies db
    ensures db.Progress()
    ensures Refused(reply) ==> db.tables == old(db.tables)
    ensures NoErrors(db.fate, old(db.calls), db.calls) && reply.Internal? ==> db.tables == old(db.tables)
    ensures reply.Fulfilled? ==> db.tables == WithoutDns(old(db.tables), node)
    ensures NoErrors(db.fate, old(db.calls), db.calls) ==>
      reply == if node !in old(db.tables).nodes then NotFound
               else if !remote && DnsOfNode(old(db.tables), node) != {} then Internal else Fulfilled
  {
    var ok := db.Query();
    if !ok {
      return Internal;
    }
    if node !in db.tables.nodes {
      return NotFound;
    }
    var failed := DnsDelete(db, node, remote);
    reply := if failed then Internal else Fulfilled;
  }

  // ---------- Applications on nodes ----------

  /** POST /nodes/{node_id}/apps. `valid` is the verdict on the IDs, `admitted` that of the EPA validation. */
  method PostNodeApp(db: Db, node: Id, app: Id, valid: bool, admitted: bool, remote: bool) returns (reply: Reply)
    requires db.Valid()
    modifies db
    ensures db.Progress()
    ensures Refused(reply) ==> db.tables == old(db.tables)
    ensures NoErrors(db.fate, old(db.calls), db.calls) && reply.Internal? ==> db.tables == old(db.tables)
    ensures reply.Fulfilled? ==>
      && admitted && remote && node in old(db.tables).nodes && app in old(db.tables).apps
      && AppOnNode(old(db.tables), node, app) == {}
      && Unused(old(db.tables), old(db.next))
      && db.tables == old(db.tables).(nodeApps := old(db.tables).nodeApps[old(db.next) := NodeApp(node, app)])
    ensures NoErrors(db.fate, old(db.calls), db.calls) ==>
      reply == if AppOnNode(old(db.tables), node, app) != {} then InUse
               else if node !in old(db.tables).nodes then NotFound
               else if !valid then BadRequest
               else if app !in old(db.tables).apps then NotFound
               else if admitted && remote then Fulfilled else Internal
  {
    var ok := db.Query();
    if !ok {
      return Internal;
    }
    if AppOnNode(db.tables, node, app) != {} {
      return InUse;
    }
    ok := db.Query();
    if !ok {
      return Internal;
    }
    if node !in db.tables.nodes {
      return NotFound;
    }
    var id := db.NewId();
    if !valid {
      return BadRequest;
    }
    ok := db.Query();
    if !ok {
      return Internal;
    }
    if app !in db.tables.apps {
      return NotFound;
    }
    ok := db.Query();
    if !ok || !admitted || !remote {
      return Internal;
    }
    assert forall i <- db.tables.nodeApps :: i !in AppOnNode(db.tables, node, app);
    var affected;
    ok, affected := db.Write(InsertNodeApp(id, NodeApp(node, app)));
    reply := if ok then Fulfilled else Internal;
  }

  /** Whether an application has a policy on a node. */
  predicate HasPolicy(t: Tables, node: Id, app: Id) {
    exists a <- AppOnNode(t, node, app) :: PoliciesOf(t, a) != {}
  }

  lemma HasPolicyExactly(t: Tables, node: Id, app: Id)
    requires PoliciesSound(t)
    ensures HasPolicy(t, node, app) <==>
      exists i <- t.nodeAppPolicies ::
        t.nodeAppPolicies[i].nodeApp in t.nodeApps && t.nodeApps[t.nodeAppPolicies[i].nodeApp] == NodeApp(node, app)
  {
    if HasPolicy(t, node, app) {
      var a :| a in AppOnNode(t, node, app) && PoliciesOf(t, a) != {};
      var i :| i in PoliciesOf(t, a);
      assert t.nodeAppPolicies[i].nodeApp == a;
    }
    if i :| i in t.nodeAppPolicies &&
            t.nodeAppPolicies[i].nodeApp in t.nodeApps && t.nodeApps[t.nodeAppPolicies[i].nodeApp] == NodeApp(node, app) {
      var a := t.nodeAppPolicies[i].nodeApp;
      assert a in AppOnNode(t, node, app) && i in PoliciesOf(t, a);
    }
  }

  /** The node-app of a request, if it is the only one. */
  method FindNodeApp(db: Db, node: Id, app: Id) returns (reply: Reply, id: Id)
    requires db.Valid()
    modifies db
    ensures db.Progress() && db.tables == old(db.tables) && db.next == old(db.next) && db.history == old(db.history)
    ensures reply.Fulfilled? ==> AppOnNode(db.tables, node, app) == {id}
    ensures NoErrors(db.fate, old(db.calls), db.calls) ==>
      reply == if AppOnNode(db.tables, node, app) == {} then NotFound else Fulfilled
  {
    var ok := db.Query();
    if !ok {
      return Internal, 0;
    }
    var found := db.Rows(AppOnNode(db.tables, node, app));
    if found == [] {
      assert AppOnNode(db.tables, node, app) == {};
      return NotFound, 0;
    }
    id := found[0];
    OneNodeApp(db.tables, node, app, found);
    reply := if |found| > 1 then Internal else Fulfilled;
  }

  lemma SameNodeApp(t: Tables, node: Id, app: Id, rows: seq<Id>, i: nat, j: nat)
    requires NodeAppsSound(t) && (forall i :: i in rows <==> i in AppOnNode(t, node, app))
    requires i < |rows| && j < |rows|
    ensures rows[i] == rows[j]
  {
    assert rows[i] in rows && rows[j] in rows;
  }

  lemma OneNodeApp(t: Tables, node: Id, app: Id, rows: seq<Id>)
    requires NodeAppsSound(t) && (forall i :: i in rows <==> i in AppOnNode(t, node, app))
    requires rows != [] && forall i, j :: 0 <= i < j < |rows| ==> rows[i] != rows[j]
    ensures |rows| == 1 && AppOnNode(t, node, app) == {rows[0]}
  {
    if |rows| > 1 {
      SameNodeApp(t, node, app, rows, 0, 1);
      assert false;
    }
  }

  method DeleteNodeAppById(db: Db, node: Id, app: Id, remote: bool) returns (reply: Reply)
    requires db.Valid()
    modifies db
    ensures db.Progress()
    ensures Refused(reply) ==> db.tables == old(db.tables)
    ensures NoErrors(db.fate, old(db.calls), db.calls) && reply.Internal? ==> db.tables == old(db.tables)
    ensures reply.Fulfilled? ==>
      db.tables == old(db.tables).(nodeApps := old(db.tables).nodeApps - AppOnNode(old(db.tables), node, app))
    ensures NoErrors(db.fate, old(db.calls), db.calls) ==>
      reply == if AppOnNode(old(db.tables), node, app) == {} then NotFound
               else if HasPolicy(old(db.tables), node, app) then InUse
               else if remote then Fulfilled else Internal
  {
    var id;
    reply, id := FindNodeApp(db, node, app);
    if !reply.Fulfilled? {
      return;
    }
    var ok := db.Query();
    if !ok {
      return Internal;
    }
    assert id in AppOnNode(db.tables, node, app);
    if PoliciesOf(db.tables, id) != {} {
      return InUse;
    }
    if !remote {
      return Internal;
    }
    assert forall i <- db.tables.nodeAppPolicies :: i !in PoliciesOf(db.tables, id);
    var affected;
    ok, affected := db.Write(DeleteNodeApp(id));
    reply := if ok && affected then Fulfilled else Internal;
  }

  // ---------- Policies of applications ----------

  /** The tables with `policy` as the only policy of a node-app. */
  function WithPolicy(t: Tables, nodeApp: Id, policy: Id, id: Id): Tables {
    t.(nodeAppPolicies := (t.nodeAppPolicies - PoliciesOf(t, nodeApp))[id := NodeAppPolicy(nodeApp, policy)])
  }

  /** Afterwards the node-app has just the new policy row, and all other rows are as they were. */
  lemma WithPolicyExactly(t: Tables, nodeApp: Id, policy: Id, id: Id)
    requires id !in t.nodeAppPolicies
    ensures var after := WithPolicy(t, nodeApp, policy, id);
      && PoliciesOf(after, nodeApp) == {id} && after.nodeAppPolicies[id] == NodeAppPolicy(nodeApp, policy)
      && (forall i :: i in after.nodeAppPolicies && i != id <==> i in t.nodeAppPolicies && i !in PoliciesOf(t, nodeApp))
      && (forall i <- t.nodeAppPolicies ::
            t.nodeAppPolicies[i].nodeApp != nodeApp ==>
              i in after.nodeAppPolicies && after.nodeAppPolicies[i] == t.nodeAppPolicies[i])
      && after == t.(nodeAppPolicies := after.nodeAppPolicies)
  {
  }

  /** PATCH .../policy, for native and for Kube-OVN policies. */
  method PatchNodeAppPolicy(db: Db, node: Id, app: Id, policy: Id, remote: bool) returns (reply: Reply)
    requires db.Valid()
    modifies db
    ensures db.Progress()
    ensures Refused(reply) ==> db.tables == old(db.tables)
    ensures NoErrors(db.fate, old(db.calls), db.calls) && reply.Internal? ==> db.tables == old(db.tables)
    ensures reply.Fulfilled? ==>
      exists a ::
        && AppOnNode(old(db.tables), node, app) == {a}
        && db.tables == WithPolicy(old(db.tables), a, policy, old(db.next))
    ensures NoErrors(db.fate, old(db.calls), db.calls) ==>
      reply == if AppOnNode(old(db.tables), node, app) == {} || policy !in old(db.tables).policies then NotFound
               else if remote then Fulfilled else Internal
  {
    var a;
    reply, a := FindNodeApp(db, node, app);
    if !reply.Fulfilled? {
      return;
    }
    var ok := db.Query();
    if !ok {
      return Internal;
    }
    if policy !in db.tables.policies {
      return NotFound;
    }
    if !remote {
      return Internal;
    }
    ok := db.Query();
    if !ok {
      return Internal;
    }
    assert a in AppOnNode(db.tables, node, app);
    var failed := ReplacePolicy(db, a, policy);
    reply := if failed then Internal else Fulfilled;
  }

  /** Deletes the policy row of a node-app, if there is exactly one, and creates the new one. */
  method ReplacePolicy(db: Db, a: Id, policy: Id) returns (failed: bool)
    requires db.Valid() && a in db.tables.nodeApps && policy in db.tables.policies
    modifies db
    ensures db.Progress()
    ensures !failed ==> db.tables == WithPolicy(old(db.tables), a, policy, old(db.next))
    ensures NoErrors(db.fate, old(db.calls), db.calls) ==> !failed
  {
    var rows := db.Rows(PoliciesOf(db.tables, a));
    OnePolicy(db.tables, a, rows);
    if |rows| == 1 {
      assert rows[0] in rows;
      var ok, affected := db.Write(DeleteNodeAppPolicy(rows[0]));
      if !ok || !affected {
        return true;
      }
    }
    var id := db.NewId();
    var ok, affected := db.Write(InsertNodeAppPolicy(id, NodeAppPolicy(a, policy)));
    failed := !ok;
  }

  lemma SamePolicy(t: Tables, a: Id, rows: seq<Id>, i: nat, j: nat)
    requires PoliciesSound(t) && (forall i :: i in rows <==> i in PoliciesOf(t, a))
    requires i < |rows| && j < |rows|
    ensures rows[i] == rows[j]
  {
    assert rows[i] in rows && rows[j] in rows;
  }

  lemma OnePolicy(t: Tables, a: Id, rows: seq<Id>)
    requires PoliciesSound(t) && (forall i :: i in rows <==> i in PoliciesOf(t, a))
    requires forall i, j :: 0 <= i < j < |rows| ==> rows[i] != rows[j]
    ensures |rows| <= 1
    ensures |rows| == 0 ==> PoliciesOf(t, a) == {} && t.nodeAppPolicies - PoliciesOf(t, a) == t.nodeAppPolicies
    ensures |rows| == 1 ==> PoliciesOf(t, a) == {rows[0]}
    ensures forall i <- t.nodeAppPolicies - PoliciesOf(t, a) :: t.nodeAppPolicies[i].nodeApp != a
  {
    if |rows| > 1 {
      SamePolicy(t, a, rows, 0, 1);
      assert false;
    }
    if |rows| == 1 {
      assert rows[0] in rows;
    }
  }

  /** DELETE .../policy. Without a policy row the handler panics on an empty list, after having asked the node. */
  method DeletePolicyOfApp(db: Db, node: Id, app: Id, remote: bool) returns (reply: Reply)
    requires db.Valid()
    modifies db
    ensures db.Progress()
    ensures Refused(reply) ==> db.tables == old(db.tables)
    ensures NoErrors(db.fate, old(db.calls), db.calls) && reply.Internal? ==> db.tables == old(db.tables)
    ensures reply.Fulfilled? ==>
      exists a :: AppOnNode(old(db.tables), node, app) == {a} && PoliciesOf(old(db.tables), a) != {} &&
        db.tables == old(db.tables).(nodeAppPolicies := old(db.tables).nodeAppPolicies - PoliciesOf(old(db.tables), a))
    ensures NoErrors(db.fate, old(db.calls), db.calls) ==>
      reply == if AppOnNode(old(db.tables), node, app) == {} then NotFound
               else if remote && HasPolicy(old(db.tables), node, app) then Fulfilled else Internal
  {
    var a;
    reply, a := FindNodeApp(db, node, app);
    if !reply.Fulfilled? {
      return;
    }
    var ok := db.Query();
    if !ok {
      return Internal;
    }
    assert a in AppOnNode(db.tables, node, app);
    var rows := db.Rows(PoliciesOf(db.tables, a));
    OnePolicy(db.tables, a, rows);
    if !remote || rows == [] {
      return Internal;
    }
    assert rows[0] in rows;
    var affected;
    ok, affected := db.Write(DeleteNodeAppPolicy(rows[0]));
    reply := if ok && affected then Fulfilled else Internal;
  }

  // ---------- Interface policies ----------

  function IfaceRows(t: Tables, iface: Id): set<Id> {
    set i | i in t.ifacePolicies && t.ifacePolicies[i].iface == iface
  }

  /** The interface policies once the only row of the interface, if there is just one, is gone. */
  function Kept(t: Tables, iface: Id): map<Id, IfacePolicy> {
    if |IfaceRows(t, iface)| == 1 then t.ifacePolicies - IfaceRows(t, iface) else t.ifacePolicies
  }

  /** Exactly the row of the interface, if it has just one, is gone. */
  lemma KeptExactly(t: Tables, iface: Id, i: Id)
    ensures i in Kept(t, iface) <==>
            i in t.ifacePolicies && !(t.ifacePolicies[i].iface == iface && |IfaceRows(t, iface)| == 1)
    ensures i in Kept(t, iface) ==> Kept(t, iface)[i] == t.ifacePolicies[i]
  {
  }

  method DropIfaceRow(db: Db, iface: Id) returns (failed: bool)
    requires db.Valid()
    modifies db
    ensures db.Progress() && db.next == old(db.next)
    ensures !failed ==> db.tables == old(db.tables).(ifacePolicies := Kept(old(db.tables), iface))
    ensures NoErrors(db.fate, old(db.calls), db.calls) ==> !failed
  {
    if |IfaceRows(db.tables, iface)| != 1 {
      return false;
    }
    var row :| row in IfaceRows(db.tables, iface);
    Singleton(IfaceRows(db.tables, iface), row);
    var ok, affected := db.Write(DeleteIfacePolicy(row));
    failed := !ok || !affected;
  }

  /** PATCH (or, without a policy, DELETE) of an interface's policy. The old row is looked up by interface alone. */
  method SetIfacePolicy(db: Db, node: Id, iface: Id, policy: Option<Id>, remote: bool) returns (reply: Reply)
    requires db.Valid()
    modifies db
    ensures db.Progress()
    ensures Refused(reply) ==> db.tables == old(db.tables)
    ensures NoErrors(db.fate, old(db.calls), db.calls) && reply.Internal? ==> db.tables == old(db.tables)
    ensures reply.Fulfilled? ==>
      var kept := Kept(old(db.tables), iface);
      db.tables == old(db.tables).(ifacePolicies :=
        if policy.None? then kept else kept[old(db.next) := IfacePolicy(node, iface, policy.value)])
    ensures NoErrors(db.fate, old(db.calls), db.calls) ==>
      reply == if node !in old(db.tables).nodes || (policy.Some? && policy.value !in old(db.tables).policies) then NotFound
               else if remote then Fulfilled else Internal
  {
    var ok := db.Query();
    if !ok {
      return Internal;
    }
    if node !in db.tables.nodes {
      return NotFound;
    }
    if policy.Some? {
      ok := db.Query();
      if !ok {
        return Internal;
      }
      if policy.value !in db.tables.policies {
        return NotFound;
      }
    }
    ok := db.Query();
    if !remote || !ok {
      return Internal;
    }
    var failed := DropIfaceRow(db, iface);
    if failed {
      return Internal;
    }
    if policy.Some? {
      var id := db.NewId();
      var affected;
      ok, affected := db.Write(InsertIfacePolicy(id, IfacePolicy(node, iface, policy.value)));
      if !ok {
        return Internal;
      }
    }
    return Fulfilled;
  }

  lemma Singleton(s: set<Id>, x: Id)
    requires |s| == 1 && x in s
    ensures s == {x}
  {
    assert |s - {x}| == 0;
  }

  // ---------- Whole runs ----------

  datatype Request =
    | PostReq(entity: Entity, validEntity: bool)
    | DeleteNodeReq(node: Id, forced: bool)
    | DeleteAppReq(app: Id)
    | DeletePolicyReq(policy: Id)
    | PatchDnsReq(node: Id, payload: DnsPayload, remote: bool, taken: bool)
    | DeleteDnsReq(node: Id, remote: bool)
    | PostNodeAppReq(node: Id, app: Id, valid: bool, admitted: bool, remote: bool)
    | DeleteNodeAppReq(node: Id, app: Id, remote: bool)
    | PatchPolicyReq(node: Id, app: Id, policy: Id, remote: bool)
    | DeletePolicyOfAppReq(node: Id, app: Id, remote: bool)
    | IfacePolicyReq(node: Id, iface: Id, ifacePolicy: Option<Id>, remote: bool)

  /** What a request that is granted makes of the tables; `first` is the next fresh ID. */
  ghost predicate Granted(t: Tables, first: Id, request: Request, after: Tables) {
    match request
    case PostReq(entity, _) => after == Apply(t, Insertion(entity, first))
    case DeleteNodeReq(node, forced) => after == if forced then WithoutNode(t, node) else t.(nodes := t.nodes - {node})
    case DeleteAppReq(app) => after == t.(apps := t.apps - {app})
    case DeletePolicyReq(policy) => after == t.(policies := t.policies - {policy})
    case PatchDnsReq(node, payload, _, _) =>
      payload.Aliases? && after == WithDns(WithoutDns(t, node), node, payload.apps, first)
    case DeleteDnsReq(node, _) => after == WithoutDns(t, node)
    case PostNodeAppReq(node, app, _, _, _) => after == t.(nodeApps := t.nodeApps[first := NodeApp(node, app)])
    case DeleteNodeAppReq(node, app, _) => after == t.(nodeApps := t.nodeApps - AppOnNode(t, node, app))
    case PatchPolicyReq(node, app, policy, _) =>
      exists a :: AppOnNode(t, node, app) == {a} && after == WithPolicy(t, a, policy, first)
    case DeletePolicyOfAppReq(node, app, _) =>
      exists a :: AppOnNode(t, node, app) == {a} && after == t.(nodeAppPolicies := t.nodeAppPolicies - PoliciesOf(t, a))
    case IfacePolicyReq(node, iface, policy, _) =>
      var kept := Kept(t, iface);
      after == t.(ifacePolicies := if policy.None? then kept else kept[first := IfacePolicy(node, iface, policy.value)])
  }

  /** A PATCH of a node's DNS data whose body will be refused, but only after the data is gone. */
  predicate LosesDns(t: Tables, request: Request) {
    request.PatchDnsReq? && !request.payload.Aliases? && DnsOfNode(t, request.node) != {}
  }

  /** The reply to a request none of whose database calls fails. */
  function Answer(t: Tables, request: Request): Reply {
    match request
    case PostReq(_, valid) => if valid then Fulfilled else BadRequest
    case DeleteNodeReq(node, forced) =>
      if (if forced then node in t.nodes else Deletable(t, node)) then Fulfilled else Internal
    case DeleteAppReq(app) => if AppInUse(t, app) then InUse else if app !in t.apps then NotFound else Fulfilled
    case DeletePolicyReq(policy) =>
      if PolicyInUse(t, policy) then InUse else if policy !in t.policies then NotFound else Fulfilled
    case PatchDnsReq(node, payload, remote, taken) =>
      if node !in t.nodes then NotFound
      else if !remote && DnsOfNode(t, node) != {} then Internal
      else if payload.Malformed? then BadRequest
      else if payload.Forwarders? then NotImplemented
      else if taken then Fulfilled else Internal
    case DeleteDnsReq(node, remote) =>
      if node !in t.nodes then NotFound else if !remote && DnsOfNode(t, node) != {} then Internal else Fulfilled
    case PostNodeAppReq(node, app, valid, admitted, remote) =>
      if AppOnNode(t, node, app) != {} then InUse
      else if node !in t.nodes then NotFound
      else if !valid then BadRequest
      else if app !in t.apps then NotFound
      else if admitted && remote then Fulfilled else Internal
    case DeleteNodeAppReq(node, app, remote) =>
      if AppOnNode(t, node, app) == {} then NotFound
      else if HasPolicy(t, node, app) then InUse
      else if remote then Fulfilled else Internal
    case PatchPolicyReq(node, app, policy, remote) =>
      if AppOnNode(t, node, app) == {} || policy !in t.policies then NotFound
      else if remote then Fulfilled else Internal
    case DeletePolicyOfAppReq(node, app, remote) =>
      if AppOnNode(t, node, app) == {} then NotFound
      else if remote && HasPolicy(t, node, app) then Fulfilled else Internal
    case IfacePolicyReq(node, _, policy, remote) =>
      if node !in t.nodes || (policy.Some? && policy.value !in t.policies) then NotFound
      else if remote then Fulfilled else Internal
  }

  /** What a request that ends in an internal error leaves although none of its database calls fails: a PATCH of DNS
      data that the node does not take has removed the old data, and a forced deletion of an unknown node has removed
      the rows that refer to it. */
  function Abandoned(t: Tables, request: Request): Tables {
    match request
    case DeleteNodeReq(node, forced) => if forced then WithoutRowsOf(t, node) else t
    case PatchDnsReq(node, _, remote, _) => if remote || DnsOfNode(t, node) == {} then WithoutDns(t, node) else t
    case _ => t
  }

  /** Where a request stands once it is answered: a fulfilled one did what it asks for; a refused one left the tables
      alone if and only if it is not one that loses DNS data, and then all it did is to remove that data. If none of its
      calls failed, reply and tables are determined. */
  ghost predicate Handled(t: Tables, first: Id, request: Request, reply: Reply, after: Tables, clean: bool) {
    && (reply.Fulfilled? ==> Granted(t, first, request, after))
    && (Refused(reply) ==> (after == t <==> !LosesDns(t, request)))
    && (Refused(reply) && LosesDns(t, request) ==> after == WithoutDns(t, request.node))
    && (clean ==> reply == Answer(t, request))
    && (clean && reply.Internal? ==> after == Abandoned(t, request))
  }

  /** The DNS data of a node is lost iff there is some; an unknown node has none. */
  lemma RefusedPatch(t: Tables, node: Id)
    requires Sound(t)
    ensures WithoutDns(t, node) == t <==> DnsOfNode(t, node) == {}
    ensures node !in t.nodes ==> DnsOfNode(t, node) == {}
  {
    if DnsOfNode(t, node) == {} {
      NothingToDo(t, node);
    } else {
      var i :| i in DnsOfNode(t, node);
      assert i in t.nodeDns && i !in WithoutDns(t, node).nodeDns;
    }
  }

  method NodeWithDns() returns (db: Db, node: Id)
    ensures fresh(db) && db.Valid() && (forall n: nat :: db.fate(n).Done?)
    ensures DnsOfNode(db.tables, node) != {}
  {
    db := new Db(_ => Done);
    node := db.next;
    var posted := Post(db, NodeEntity, true);
    ghost var first := db.next;
    ghost var before := WithoutDns(db.tables, node);
    var patched := PatchNodeDns(db, node, Aliases([]), true, true);
    DnsOfPatched(before, node, [], first);
  }

  lemma DnsOfPatched(t: Tables, node: Id, apps: seq<Id>, first: Id)
    ensures first + 1 in DnsOfNode(WithDns(t, node, apps, first), node)
  {
  }

  /** A refused request that changes the tables: a malformed body for any node with DNS data, although no call fails.
      `NodeWithDns` shows that there are such states. */
  method RefusedYetChanged(db: Db, node: Id) returns (reply: Reply)
    requires db.Valid() && (forall n: nat :: db.fate(n).Done?) && DnsOfNode(db.tables, node) != {}
    modifies db
    ensures reply == BadRequest
    ensures db.tables == WithoutDns(old(db.tables), node) && db.tables != old(db.tables)
  {
    RefusedPatch(db.tables, node);
    reply := PatchNodeDns(db, node, Malformed, true, true);
  }

  /** Requests about nodes, applications, policies and DNS data. */
  predicate AboutEntities(request: Request) {
    request.PostReq? || request.DeleteNodeReq? || request.DeleteAppReq? || request.DeletePolicyReq? ||
    request.PatchDnsReq? || request.DeleteDnsReq?
  }

  method HandleEntities(db: Db, request: Request) returns (reply: Reply)
    requires db.Valid() && AboutEntities(request)
    modifies db
    ensures db.Progress()
    ensures Handled(old(db.tables), old(db.next), request, reply, db.tables,
                    NoErrors(db.fate, old(db.calls), db.calls))
  {
    match request
    case PostReq(entity, valid) => reply := Post(db, entity, valid);
    case DeleteNodeReq(node, forced) =>
      var failed := DeleteNodeById(db, node, forced);
      reply := if failed then Internal else Fulfilled;
    case DeleteAppReq(app) => reply := DeleteAppById(db, app);
    case DeletePolicyReq(policy) => reply := DeletePolicyById(db, policy);
    case PatchDnsReq(node, payload, remote, taken) =>
      reply := PatchNodeDns(db, node, payload, remote, taken);
      RefusedPatch(old(db.tables), node);
    case DeleteDnsReq(node, remote) => reply := DeleteNodeDns(db, node, remote);
  }

  method Handle(db: Db, request: Request) returns (reply: Reply)
    requires db.Valid()
    modifies db
    ensures db.Progress()
    ensures Handled(old(db.tables), old(db.next), request, reply, db.tables,
                    NoErrors(db.fate, old(db.calls), db.calls))
  {
    if AboutEntities(request) {
      reply := HandleEntities(db, request);
      return;
    }
    match request
    case PostNodeAppReq(node, app, valid, admitted, remote) =>
      reply := PostNodeApp(db, node, app, valid, admitted, remote);
    case DeleteNodeAppReq(node, app, remote) => reply := DeleteNodeAppById(db, node, app, remote);
    case PatchPolicyReq(node, app, policy, remote) => reply := PatchNodeAppPolicy(db, node, app, policy, remote);
    case DeletePolicyOfAppReq(node, app, remote) => reply := DeletePolicyOfApp(db, node, app, remote);
    case IfacePolicyReq(node, iface, policy, remote) => reply := SetIfacePolicy(db, node, iface, policy, remote);
  }

  /** A request that was served: the tables before and after it, the first ID it could use and its database calls, which
      are numbered `from` to `to - 1`. */
  datatype Served = Served(
    request: Request, reply: Reply, before: Tables, first: Id, after: Tables, from: nat, to: nat)

  ghost predicate Accounted(e: Served, fate: nat -> Fate) {
    && Below(e.before, e.first) && e.from <= e.to
    && Handled(e.before, e.first, e.request, e.reply, e.after, NoErrors(fate, e.from, e.to))
  }

  ghost function TablesAfter(record: seq<Served>): Tables {
    if record == [] then EMPTY else record[|record| - 1].after
  }

  ghost function CallsAfter(record: seq<Served>): nat {
    if record == [] then 0 else record[|record| - 1].to
  }

  /** The record of a run: each request starts where the one before it ended. */
  ghost predicate Recorded(record: seq<Served>, requests: seq<Request>, replies: seq<Reply>, fate: nat -> Fate)
    decreases |record|
  {
    && |record| == |requests| == |replies|
    && (record != [] ==>
          var n := |record| - 1;
          var e := record[n];
          && Recorded(record[..n], requests[..n], replies[..n], fate)
          && e.request == requests[n] && e.reply == replies[n] && Accounted(e, fate)
          && e.before == TablesAfter(record[..n]) && e.from == CallsAfter(record[..n]))
  }

  lemma RecordOne(record: seq<Served>, e: Served, requests: seq<Request>, replies: seq<Reply>, fate: nat -> Fate)
    requires Recorded(record, requests, replies, fate) && Accounted(e, fate)
    requires e.before == TablesAfter(record) && e.from == CallsAfter(record)
    ensures Recorded(record + [e], requests + [e.request], replies + [e.reply], fate)
  {
    var n := |record|;
    assert (record + [e])[..n] == record && (requests + [e.request])[..n] == requests;
    assert (replies + [e.reply])[..n] == replies;
  }

  /** Every request of a recorded run, on its own. */
  lemma {:induction false} RecordedAt(
      record: seq<Served>, requests: seq<Request>, replies: seq<Reply>, fate: nat -> Fate, i: nat)
    requires Recorded(record, requests, replies, fate) && i < |record|
    ensures record[i].request == requests[i] && record[i].reply == replies[i] && Accounted(record[i], fate)
    ensures record[i].before == TablesAfter(record[..i]) && record[i].from == CallsAfter(record[..i])
    decreases |record|
  {
    var n := |record| - 1;
    if i == n {
    } else {
      RecordedAt(record[..n], requests[..n], replies[..n], fate, i);
      assert record[..n][..i] == record[..i];
    }
  }

  /** A run none of whose calls fails: every reply is the answer to its request. */
  lemma CleanRunAnswers(
      record: seq<Served>, requests: seq<Request>, replies: seq<Reply>, fate: nat -> Fate, i: nat)
    requires Recorded(record, requests, replies, fate) && i < |record| && forall n: nat :: fate(n).Done?
    ensures replies[i] == Answer(TablesAfter(record[..i]), requests[i])
  {
    RecordedAt(record, requests, replies, fate, i);
  }

  /** Step-wise integrity of every run from empty tables: whatever the requests and whichever calls fail, the tables are
      sound after every single statement, and for each request the record tells what it did and how it is answered. */
  method Serve(requests: seq<Request>, fate: nat -> Fate)
    returns (db: Db, replies: seq<Reply>, ghost record: seq<Served>)
    ensures fresh(db) && db.fate == fate
    ensures Recorded(record, requests, replies, fate)
    ensures db.tables == TablesAfter(record) && db.calls == CallsAfter(record)
    ensures Sound(db.tables)
    ensures forall t <- db.history :: Sound(t)
    ensures db.tables == if db.history == [] then EMPTY else db.history[|db.history| - 1]
  {
    db := new Db(fate);
    replies, record := [], [];
    for k := 0 to |requests|
      invariant fresh(db) && db.fate == fate && db.Valid()
      invariant Recorded(record, requests[..k], replies, fate)
      invariant db.tables == TablesAfter(record) && db.calls == CallsAfter(record)
    {
      var reply;
      ghost var e;
      reply, e := ServeOne(db, requests[k]);
      RecordOne(record, e, requests[..k], replies, fate);
      replies, record := replies + [reply], record + [e];
      assert requests[..k + 1] == requests[..k] + [requests[k]];
    }
    assert requests[..|requests|] == requests;
  }

  method ServeOne(db: Db, request: Request) returns (reply: Reply, ghost e: Served)
    requires db.Valid()
    modifies db
    ensures db.Valid() && Accounted(e, db.fate)
    ensures e == Served(request, reply, old(db.tables), old(db.next), db.tables, old(db.calls), db.calls)
  {
    reply := Handle(db, request);
    e := Served(request, reply, old(db.tables), old(db.next), db.tables, old(db.calls), db.calls);
  }
}

/** The controller's relational state, without any constraint enforced by the database itself. */
module Tables {

  /** Row IDs stand for UUIDs. */
  type Id = nat

  datatype NodeApp = NodeApp(node: Id, app: Id)
  datatype NodeAppPolicy = NodeAppPolicy(nodeApp: Id, policy: Id)
  datatype NodeDns = NodeDns(node: Id, config: Id)
  datatype Alias = Alias(config: Id, app: Id)
  datatype IfacePolicy = IfacePolicy(node: Id, iface: Id, policy: Id)

  datatype Tables = Tables(
    nodes: set<Id>,
    apps: set<Id>,
    policies: set<Id>,
    dnsConfigs: set<Id>,
    nodeApps: map<Id, NodeApp>,
    nodeAppPolicies: map<Id, NodeAppPolicy>,
    nodeDns: map<Id, NodeDns>,
    aliases: map<Id, Alias>,
    ifacePolicies: map<Id, IfacePolicy>)

  const EMPTY := Tables({}, {}, {}, {}, map[], map[], map[], map[], map[])

  /** The statements the persistence service issues: INSERT of one row and DELETE by ID. */
  datatype Op =
    | InsertNode(id: Id)
    | InsertApp(id: Id)
    | InsertPolicy(id: Id)
    | InsertDnsConfig(id: Id)
    | InsertNodeApp(id: Id, nodeApp: NodeApp)
    | InsertNodeAppPolicy(id: Id, nodeAppPolicy: NodeAppPolicy)
    | InsertNodeDns(id: Id, nodeDns: NodeDns)
    | InsertAlias(id: Id, alias: Alias)
    | InsertIfacePolicy(id: Id, ifacePolicy: IfacePolicy)
    | DeleteNode(id: Id)
    | DeleteApp(id: Id)
    | DeletePolicy(id: Id)
    | DeleteDnsConfig(id: Id)
    | DeleteNodeApp(id: Id)
    | DeleteNodeAppPolicy(id: Id)
    | DeleteNodeDns(id: Id)
    | DeleteAlias(id: Id)
    | DeleteIfacePolicy(id: Id)

  function Apply(t: Tables, op: Op): Tables {
    match op
    case InsertNode(id) => t.(nodes := t.nodes + {id})
    case InsertApp(id) => t.(apps := t.apps + {id})
    case InsertPolicy(id) => t.(policies := t.policies + {id})
    case InsertDnsConfig(id) => t.(dnsConfigs := t.dnsConfigs + {id})
    case InsertNodeApp(id, row) => t.(nodeApps := t.nodeApps[id := row])
    case InsertNodeAppPolicy(id, row) => t.(nodeAppPolicies := t.nodeAppPolicies[id := row])
    case InsertNodeDns(id, row) => t.(nodeDns := t.nodeDns[id := row])
    case InsertAlias(id, row) => t.(aliases := t.aliases[id := row])
    case InsertIfacePolicy(id, row) => t.(ifacePolicies := t.ifacePolicies[id := row])
    case DeleteNode(id) => t.(nodes := t.nodes - {id})
    case DeleteApp(id) => t.(apps := t.apps - {id})
    case DeletePolicy(id) => t.(policies := t.policies - {id})
    case DeleteDnsConfig(id) => t.(dnsConfigs := t.dnsConfigs - {id})
    case DeleteNodeApp(id) => t.(nodeApps := t.nodeApps - {id})
    case DeleteNodeAppPolicy(id) => t.(nodeAppPolicies := t.nodeAppPolicies - {id})
    case DeleteNodeDns(id) => t.(nodeDns := t.nodeDns - {id})
    case DeleteAlias(id) => t.(aliases := t.aliases - {id})
    case DeleteIfacePolicy(id) => t.(ifacePolicies := t.ifacePolicies - {id})
  }

  /** Whether the statement affects a row. */
  predicate Affects(t: Tables, op: Op) {
    match op
    case DeleteNode(id) => id in t.nodes
    case DeleteApp(id) => id in t.apps
    case DeletePolicy(id) => id in t.policies
    case DeleteDnsConfig(id) => id in t.dnsConfigs
    case DeleteNodeApp(id) => id in t.nodeApps
    case DeleteNodeAppPolicy(id) => id in t.nodeAppPolicies
    case DeleteNodeDns(id) => id in t.nodeDns
    case DeleteAlias(id) => id in t.aliases
    case DeleteIfacePolicy(id) => id in t.ifacePolicies
    case _ => true
  }

  // ---------- Integrity ----------

  predicate NodeAppsSound(t: Tables) {
    && (forall i <- t.nodeApps :: t.nodeApps[i].node in t.nodes && t.nodeApps[i].app in t.apps)
    && (forall i <- t.nodeApps, j <- t.nodeApps :: t.nodeApps[i] == t.nodeApps[j] ==> i == j)
  }

  predicate PoliciesSound(t: Tables) {
    && (forall i <- t.nodeAppPolicies ::
          t.nodeAppPolicies[i].nodeApp in t.nodeApps && t.nodeAppPolicies[i].policy in t.policies)
    && (forall i <- t.nodeAppPolicies, j <- t.nodeAppPolicies ::
          t.nodeAppPolicies[i].nodeApp == t.nodeAppPolicies[j].nodeApp ==> i == j)
  }

  predicate DnsSound(t: Tables) {
    && (forall i <- t.nodeDns :: t.nodeDns[i].node in t.nodes && t.nodeDns[i].config in t.dnsConfigs)
    && (forall i <- t.nodeDns, j <- t.nodeDns ::
          t.nodeDns[i].node == t.nodeDns[j].node || t.nodeDns[i].config == t.nodeDns[j].config ==> i == j)
    && (forall i <- t.aliases :: t.aliases[i].config in t.dnsConfigs)
    && t.nodeDns.Keys !! t.dnsConfigs
  }

  /** Referential integrity: every join row has the rows it refers to; (node, app) pairs are unique; a node-app has at
      most one policy; a node has at most one DNS configuration and a configuration serves at most one node. */
  predicate Sound(t: Tables) {
    NodeAppsSound(t) && PoliciesSound(t) && DnsSound(t)
  }

  function IdsInUse(t: Tables): set<Id> {
    t.nodes + t.apps + t.policies + t.dnsConfigs
    + t.nodeApps.Keys + t.nodeAppPolicies.Keys + t.nodeDns.Keys + t.aliases.Keys + t.ifacePolicies.Keys
  }

  /** All IDs in use are below `next`. */
  predicate Below(t: Tables, next: Id) {
    forall i <- IdsInUse(t) :: i < next
  }

  /** No table holds a row with this ID. */
  predicate Unused(t: Tables, id: Id) {
    && id !in t.nodes && id !in t.apps && id !in t.policies && id !in t.dnsConfigs && id !in t.nodeApps
    && id !in t.nodeAppPolicies && id !in t.nodeDns && id !in t.aliases && id !in t.ifacePolicies
  }

  predicate IsDelete(op: Op) {
    op.DeleteNode? || op.DeleteApp? || op.DeletePolicy? || op.DeleteDnsConfig? || op.DeleteNodeApp? ||
    op.DeleteNodeAppPolicy? || op.DeleteNodeDns? || op.DeleteAlias? || op.DeleteIfacePolicy?
  }

  lemma ApplyIds(t: Tables, op: Op)
    ensures IdsInUse(Apply(t, op)) <= if IsDelete(op) then IdsInUse(t) else IdsInUse(t) + {op.id}
  {
  }

  lemma ApplyKeepsBelow(t: Tables, op: Op, next: Id)
    requires Below(t, next) && (IsDelete(op) || op.id < next)
    ensures Below(Apply(t, op), next)
  {
    ApplyIds(t, op);
  }

  /** What a handler must know before it issues a statement. */
  predicate Guarded(t: Tables, op: Op) {
    match op
    case InsertNodeApp(id, row) =>
      && row.node in t.nodes && row.app in t.apps
      && (forall i <- t.nodeApps :: t.nodeApps[i] != row)
    case InsertNodeAppPolicy(id, row) =>
      && row.nodeApp in t.nodeApps && row.policy in t.policies
      && (forall i <- t.nodeAppPolicies :: t.nodeAppPolicies[i].nodeApp != row.nodeApp)
    case InsertNodeDns(id, row) =>
      && row.node in t.nodes && row.config in t.dnsConfigs && id !in t.dnsConfigs
      && (forall i <- t.nodeDns :: t.nodeDns[i].node != row.node && t.nodeDns[i].config != row.config)
    case InsertDnsConfig(id) => id !in t.nodeDns
    case InsertAlias(id, row) => row.config in t.dnsConfigs
    case DeleteNode(id) =>
      && (forall i <- t.nodeApps :: t.nodeApps[i].node != id)
      && (forall i <- t.nodeDns :: t.nodeDns[i].node != id)
    case DeleteApp(id) => forall i <- t.nodeApps :: t.nodeApps[i].app != id
    case DeletePolicy(id) => forall i <- t.nodeAppPolicies :: t.nodeAppPolicies[i].policy != id
    case DeleteDnsConfig(id) =>
      && (forall i <- t.nodeDns :: t.nodeDns[i].config != id)
      && (forall i <- t.aliases :: t.aliases[i].config != id)
    case DeleteNodeApp(id) => forall i <- t.nodeAppPolicies :: t.nodeAppPolicies[i].nodeApp != id
    case _ => true
  }

  /** An insertion is made under an ID that its table does not hold yet. */
  predicate NewRow(t: Tables, op: Op) {
    match op
    case InsertNodeApp(id, _) => id !in t.nodeApps
    case InsertNodeAppPolicy(id, _) => id !in t.nodeAppPolicies
    case InsertNodeDns(id, _) => id !in t.nodeDns
    case InsertAlias(id, _) => id !in t.aliases
    case _ => true
  }

  lemma GuardedKeepsNodeApps(t: Tables, op: Op)
    requires NodeAppsSound(t) && Guarded(t, op) && NewRow(t, op)
    ensures NodeAppsSound(Apply(t, op))
  {
  }

  lemma GuardedKeepsPolicies(t: Tables, op: Op)
    requires PoliciesSound(t) && Guarded(t, op) && NewRow(t, op)
    ensures PoliciesSound(Apply(t, op))
  {
  }

  lemma GuardedKeepsDns(t: Tables, op: Op)
    requires DnsSound(t) && Guarded(t, op) && NewRow(t, op)
    ensures DnsSound(Apply(t, op))
  {
  }

  lemma GuardedKeepsSound(t: Tables, op: Op)
    requires Sound(t) && Guarded(t, op) && NewRow(t, op)
    ensures Sound(Apply(t, op))
  {
    GuardedKeepsNodeApps(t, op);
    GuardedKeepsPolicies(t, op);
    GuardedKeepsDns(t, op);
  }

  lemma UnguardedNodeApp(t: Tables, id: Id, row: NodeApp)
    requires id !in t.nodeApps && !Guarded(t, InsertNodeApp(id, row))
    ensures !NodeAppsSound(Apply(t, InsertNodeApp(id, row)))
  {
    var after := Apply(t, InsertNodeApp(id, row));
    assert after.nodeApps[id] == row;
    if i :| i in t.nodeApps && t.nodeApps[i] == row {
      assert after.nodeApps[i] == row;
    }
  }

  lemma UnguardedPolicy(t: Tables, id: Id, row: NodeAppPolicy)
    requires id !in t.nodeAppPolicies && !Guarded(t, InsertNodeAppPolicy(id, row))
    ensures !PoliciesSound(Apply(t, InsertNodeAppPolicy(id, row)))
  {
    var after := Apply(t, InsertNodeAppPolicy(id, row));
    assert after.nodeAppPolicies[id] == row;
    if i :| i in t.nodeAppPolicies && t.nodeAppPolicies[i].nodeApp == row.nodeApp {
      assert after.nodeAppPolicies[i] == t.nodeAppPolicies[i];
    }
  }

  lemma UnguardedNodeDns(t: Tables, id: Id, row: NodeDns)
    requires id !in t.nodeDns && !Guarded(t, InsertNodeDns(id, row))
    ensures !DnsSound(Apply(t, InsertNodeDns(id, row)))
  {
    var after := Apply(t, InsertNodeDns(id, row));
    assert after.nodeDns[id] == row;
    if i :| i in t.nodeDns && (t.nodeDns[i].node == row.node || t.nodeDns[i].config == row.config) {
      assert after.nodeDns[i] == t.nodeDns[i];
    }
  }

  lemma UnguardedAlias(t: Tables, id: Id, row: Alias)
    requires !Guarded(t, InsertAlias(id, row))
    ensures !DnsSound(Apply(t, InsertAlias(id, row)))
  {
    assert Apply(t, InsertAlias(id, row)).aliases[id] == row;
  }

  lemma UnguardedOther(t: Tables, op: Op)
    requires !Guarded(t, op) && (IsDelete(op) || op.InsertDnsConfig?)
    ensures !Sound(Apply(t, op))
  {
  }

  /** The guards are exactly what integrity needs: a statement keeps sound tables sound iff it was guarded. */
  lemma GuardsAreExact(t: Tables, op: Op)
    requires Sound(t) && NewRow(t, op)
    ensures Guarded(t, op) <==> Sound(Apply(t, op))
  {
    if Guarded(t, op) {
      GuardedKeepsSound(t, op);
    } else {
      match op
      case InsertNodeApp(id, row) => UnguardedNodeApp(t, id, row);
      case InsertNodeAppPolicy(id, row) => UnguardedPolicy(t, id, row);
      case InsertNodeDns(id, row) => UnguardedNodeDns(t, id, row);
      case InsertAlias(id, row) => UnguardedAlias(t, id, row);
      case _ => UnguardedOther(t, op);
    }
  }

  // ---------- Queries ----------

  function Elements(rows: seq<Id>): set<Id> {
    set i | i in rows
  }

  function DnsOfNode(t: Tables, node: Id): set<Id> {
    set i | i in t.nodeDns && t.nodeDns[i].node == node
  }

  function AliasesOf(t: Tables, config: Id): set<Id> {
    set i | i in t.aliases && t.aliases[i].config == config
  }

  function AppsOfNode(t: Tables, node: Id): set<Id> {
    set i | i in t.nodeApps && t.nodeApps[i].node == node
  }

  function AppOnNode(t: Tables, node: Id, app: Id): set<Id> {
    set i | i in t.nodeApps && t.nodeApps[i] == NodeApp(node, app)
  }

  function PoliciesOf(t: Tables, nodeApp: Id): set<Id> {
    set i | i in t.nodeAppPolicies && t.nodeAppPolicies[i].nodeApp == nodeApp
  }

  function IfacePoliciesOf(t: Tables, node: Id): set<Id> {
    set i | i in t.ifacePolicies && t.ifacePolicies[i].node == node
  }
}

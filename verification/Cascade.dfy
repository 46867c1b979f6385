/** Deletion of nodes, forced and unforced. */
module Cascade {
  import opened Tables
  import opened Persistence

  // ---------- What forced deletion should remove ----------

  function ConfigsOf(t: Tables, node: Id): set<Id> {
    set i | i in t.nodeDns && t.nodeDns[i].node == node :: t.nodeDns[i].config
  }

  /** The tables without the node's DNS association, its configuration and that configuration's aliases. */
  function WithoutDns(t: Tables, node: Id): Tables {
    t.(nodeDns := map i | i in t.nodeDns && t.nodeDns[i].node != node :: t.nodeDns[i],
       dnsConfigs := t.dnsConfigs - ConfigsOf(t, node),
       aliases := map i | i in t.aliases && t.aliases[i].config !in ConfigsOf(t, node) :: t.aliases[i])
  }

  /** The tables without some node-apps and their policy rows. */
  function RemoveApps(t: Tables, nodeApps: set<Id>): Tables {
    t.(nodeApps := t.nodeApps - nodeApps,
       nodeAppPolicies :=
         map i | i in t.nodeAppPolicies && t.nodeAppPolicies[i].nodeApp !in nodeApps :: t.nodeAppPolicies[i])
  }

  /** The tables without the node's applications and their policy rows. */
  function WithoutApps(t: Tables, node: Id): Tables {
    RemoveApps(t, AppsOfNode(t, node))
  }

  function WithoutIfacePolicies(t: Tables, node: Id): Tables {
    t.(ifacePolicies := t.ifacePolicies - IfacePoliciesOf(t, node))
  }

  /** All and only the rows of the node. */
  function WithoutNode(t: Tables, node: Id): Tables {
    WithoutRowsOf(t, node).(nodes := t.nodes - {node})
  }

  /** The tables without the rows that refer to the node. */
  function WithoutRowsOf(t: Tables, node: Id): Tables {
    WithoutIfacePolicies(WithoutApps(WithoutDns(t, node), node), node)
  }

  // ---------- The handlers ----------

  method ForceDeleteDns(db: Db, node: Id) returns (failed: bool)
    requires db.Valid()
    modifies db
    ensures db.Progress()
    ensures !failed ==> db.tables == WithoutDns(old(db.tables), node)
    ensures NoErrors(db.fate, old(db.calls), db.calls) ==> !failed
  {
    var ok := db.Query();
    if !ok {
      return true;
    }
    var found := db.Rows(DnsOfNode(db.tables, node));
    if found == [] {
      assert DnsOfNode(db.tables, node) == {};
      NothingToDo(db.tables, node);
      return false;
    }
    var row := found[0];
    assert row in found;
    var config := db.tables.nodeDns[row].config;
    ok := db.Query();
    if !ok || config !in db.tables.dnsConfigs {
      return true;
    }
    ok := db.Query();
    if !ok {
      return true;
    }
    var aliases := db.Rows(AliasesOf(db.tables, config));
    // The configuration's ID is also passed to a DELETE on the association table, where it matches nothing.
    var affected;
    ok, affected := db.Write(DeleteNodeDns(config));
    if !ok {
      return true;
    }
    NoSuchAssociation(old(db.tables), config);
    failed := DeleteDns(db, row, config, aliases);
    if !failed {
      DnsRemoved(old(db.tables), node, row);
    }
  }

  lemma NoSuchAssociation(t: Tables, config: Id)
    requires DnsSound(t) && config in t.dnsConfigs
    ensures Apply(t, DeleteNodeDns(config)) == t
  {
    assert t.nodeDns - {config} == t.nodeDns;
  }

  /** Deletes a DNS association, then the aliases of its configuration, then the configuration. */
  method DeleteDns(db: Db, row: Id, config: Id, aliases: seq<Id>) returns (failed: bool)
    requires db.Valid() && row in db.tables.nodeDns && db.tables.nodeDns[row].config == config
    requires forall i :: i in aliases <==> i in AliasesOf(db.tables, config)
    modifies db
    ensures db.Progress() && db.next == old(db.next)
    ensures !failed ==> db.tables == WithoutRow(old(db.tables), row)
    ensures NoErrors(db.fate, old(db.calls), db.calls) ==> !failed
  {
    var ok, affected := db.Write(DeleteNodeDns(row));
    if !ok {
      return true;
    }
    ConfigServesOneNode(old(db.tables), row);
    failed := DeleteDnsConfigRows(db, config, aliases);
  }

  method DeleteDnsConfigRows(db: Db, config: Id, aliases: seq<Id>) returns (failed: bool)
    requires db.Valid() && forall i <- db.tables.nodeDns :: db.tables.nodeDns[i].config != config
    requires forall i :: i in aliases <==> i in AliasesOf(db.tables, config)
    modifies db
    ensures db.Progress() && db.next == old(db.next)
    ensures !failed ==> db.tables == WithoutConfig(old(db.tables), config)
    ensures NoErrors(db.fate, old(db.calls), db.calls) ==> !failed
  {
    failed := DeleteAliases(db, aliases);
    if failed {
      return;
    }
    assert Elements(aliases) == AliasesOf(old(db.tables), config);
    AliasesGone(db.tables, old(db.tables), config);
    var ok, affected := db.Write(DeleteDnsConfig(config));
    failed := !ok;
  }

  /** The tables without a configuration and its aliases. */
  function WithoutConfig(t: Tables, config: Id): Tables {
    t.(dnsConfigs := t.dnsConfigs - {config},
       aliases := map i | i in t.aliases && t.aliases[i].config != config :: t.aliases[i])
  }

  lemma ElementsStep(rows: seq<Id>, k: nat)
    requires k < |rows|
    ensures Elements(rows[..k + 1]) == Elements(rows[..k]) + {rows[k]}
  {
    assert rows[..k + 1] == rows[..k] + [rows[k]];
  }

  method DeleteAliases(db: Db, aliases: seq<Id>) returns (failed: bool)
    requires db.Valid()
    modifies db
    ensures db.Progress() && db.next == old(db.next)
    ensures !failed ==>
      db.tables == old(db.tables).(aliases := old(db.tables).aliases - Elements(aliases))
    ensures NoErrors(db.fate, old(db.calls), db.calls) ==> !failed
  {
    ghost var t := db.tables;
    for k := 0 to |aliases|
      invariant db.Progress() && db.next == old(db.next)
      invariant db.tables == t.(aliases := t.aliases - Elements(aliases[..k]))
    {
      var ok, affected := db.Write(DeleteAlias(aliases[k]));
      if !ok {
        return true;
      }
      ElementsStep(aliases, k);
      assert db.tables.aliases == t.aliases - Elements(aliases[..k + 1]);
    }
    assert aliases[..|aliases|] == aliases;
    return false;
  }

  lemma ConfigServesOneNode(t: Tables, row: Id)
    requires DnsSound(t) && row in t.nodeDns
    ensures forall i <- t.nodeDns - {row} :: t.nodeDns[i].config != t.nodeDns[row].config
  {
  }

  lemma AliasesGone(t: Tables, before: Tables, config: Id)
    requires t.aliases == before.aliases - AliasesOf(before, config)
    ensures forall i <- t.aliases :: t.aliases[i].config != config
    ensures t.aliases == map i | i in before.aliases && before.aliases[i].config != config :: before.aliases[i]
  {
  }

  /** The tables without one association, its configuration and that configuration's aliases. */
  function WithoutRow(t: Tables, row: Id): Tables
    requires row in t.nodeDns
  {
    WithoutConfig(t.(nodeDns := t.nodeDns - {row}), t.nodeDns[row].config)
  }

  /** What is gone and what is not, row by row. */
  lemma WithoutDnsExactly(t: Tables, node: Id)
    requires DnsSound(t)
    ensures var after := WithoutDns(t, node);
      && (forall i <- t.nodeDns :: i in after.nodeDns <==> t.nodeDns[i].node != node)
      && (forall i <- t.nodeDns :: t.nodeDns[i].config in after.dnsConfigs <==> t.nodeDns[i].node != node)
      && (forall i <- t.nodeDns, a <- t.aliases ::
            t.aliases[a].config == t.nodeDns[i].config ==> (a in after.aliases <==> t.nodeDns[i].node != node))
      && (forall c <- t.dnsConfigs :: (forall i <- t.nodeDns :: t.nodeDns[i].config != c) ==> c in after.dnsConfigs)
      && (forall i <- after.nodeDns :: i in t.nodeDns && after.nodeDns[i] == t.nodeDns[i])
      && (forall a <- after.aliases :: a in t.aliases && after.aliases[a] == t.aliases[a])
      && after.dnsConfigs <= t.dnsConfigs
      && after == t.(nodeDns := after.nodeDns, dnsConfigs := after.dnsConfigs, aliases := after.aliases)
  {
  }

  lemma DeletableExactly(t: Tables, node: Id)
    ensures Deletable(t, node) <==>
      && node in t.nodes && (forall i <- t.nodeApps :: t.nodeApps[i].node != node)
      && forall i <- t.nodeDns :: t.nodeDns[i].node != node
  {
    if Deletable(t, node) {
      assert forall i <- t.nodeApps :: i !in AppsOfNode(t, node);
      assert forall i <- t.nodeDns :: i !in DnsOfNode(t, node);
    }
  }

  lemma NothingToDo(t: Tables, node: Id)
    requires DnsOfNode(t, node) == {}
    ensures WithoutDns(t, node) == t
  {
    assert forall i <- t.nodeDns :: i !in DnsOfNode(t, node);
    assert ConfigsOf(t, node) == {};
    assert (map i | i in t.nodeDns && t.nodeDns[i].node != node :: t.nodeDns[i]) == t.nodeDns;
    assert (map i | i in t.aliases && t.aliases[i].config !in ConfigsOf(t, node) :: t.aliases[i]) == t.aliases;
  }

  /** A node's only association is all of its DNS data. */
  lemma DnsRemoved(t: Tables, node: Id, row: Id)
    requires Sound(t) && row in t.nodeDns && t.nodeDns[row].node == node
    ensures WithoutRow(t, row) == WithoutDns(t, node)
  {
    assert forall i <- t.nodeDns :: t.nodeDns[i].node == node ==> i == row;
    assert ConfigsOf(t, node) == {t.nodeDns[row].config};
    assert (map i | i in t.nodeDns && t.nodeDns[i].node != node :: t.nodeDns[i]) == t.nodeDns - {row};
  }

  /** Deletes policy rows; a row that is not there stops the loop without an error. */
  method DeletePolicyRows(db: Db, rows: seq<Id>) returns (failed: bool, missing: bool)
    requires db.Valid()
    modifies db
    ensures db.Progress()
    ensures !failed && !missing ==>
      db.tables == old(db.tables).(nodeAppPolicies := old(db.tables).nodeAppPolicies - Elements(rows))
    ensures Present(rows, old(db.tables).nodeAppPolicies.Keys) ==> !missing
    ensures NoErrors(db.fate, old(db.calls), db.calls) ==> !failed
  {
    ghost var t := db.tables;
    for k := 0 to |rows|
      invariant db.Progress()
      invariant db.tables == t.(nodeAppPolicies := t.nodeAppPolicies - Elements(rows[..k]))
    {
      var ok, affected := db.Write(DeleteNodeAppPolicy(rows[k]));
      if !ok {
        return true, false;
      }
      if !affected {
        return false, true;
      }
      ElementsStep(rows, k);
      assert db.tables.nodeAppPolicies == t.nodeAppPolicies - Elements(rows[..k + 1]);
    }
    assert rows[..|rows|] == rows;
    return false, false;
  }

  /** Distinct rows of a table. */
  predicate Present(rows: seq<Id>, keys: set<Id>) {
    && (forall i, j :: 0 <= i < j < |rows| ==> rows[i] != rows[j])
    && (forall i :: 0 <= i < |rows| ==> rows[i] in keys)
  }

  lemma RemoveOneApp(t: Tables, gone: set<Id>, a: Id)
    ensures var s := RemoveApps(t, gone);
      RemoveApps(t, gone + {a}) ==
        s.(nodeApps := s.nodeApps - {a}, nodeAppPolicies := s.nodeAppPolicies - PoliciesOf(s, a))
  {
    var s := RemoveApps(t, gone);
    assert t.nodeApps - (gone + {a}) == s.nodeApps - {a};
    assert RemoveApps(t, gone + {a}).nodeAppPolicies == s.nodeAppPolicies - PoliciesOf(s, a);
  }

  method ForceDeleteApps(db: Db, node: Id) returns (failed: bool)
    requires db.Valid()
    modifies db
    ensures db.Progress()
    ensures !failed ==> db.tables == WithoutApps(old(db.tables), node)
    ensures NoErrors(db.fate, old(db.calls), db.calls) ==> !failed
  {
    var ok := db.Query();
    if !ok {
      return true;
    }
    var apps := db.Rows(AppsOfNode(db.tables, node));
    ghost var t := db.tables;
    assert RemoveApps(t, {}) == t by {
      assert RemoveApps(t, {}).nodeAppPolicies == t.nodeAppPolicies;
    }
    assert Elements(apps[..0]) == {};
    for k := 0 to |apps|
      invariant db.Progress()
      invariant db.tables == RemoveApps(t, Elements(apps[..k]))
    {
      RemoveOneApp(t, Elements(apps[..k]), apps[k]);
      failed := DeleteOneApp(db, apps[k]);
      if failed {
        return;
      }
      ElementsStep(apps, k);
    }
    assert apps[..|apps|] == apps && Elements(apps) == AppsOfNode(t, node);
    return false;
  }

  /** The body of the loop: the policy rows of one node-app, then the node-app itself. */
  method DeleteOneApp(db: Db, a: Id) returns (failed: bool)
    requires db.Valid()
    modifies db
    ensures db.Progress()
    ensures !failed ==>
      db.tables == old(db.tables).(
        nodeApps := old(db.tables).nodeApps - {a},
        nodeAppPolicies := old(db.tables).nodeAppPolicies - PoliciesOf(old(db.tables), a))
    ensures NoErrors(db.fate, old(db.calls), db.calls) ==> !failed
  {
    var ok := db.Query();
    if !ok {
      return true;
    }
    var rows := db.Rows(PoliciesOf(db.tables, a));
    assert Present(rows, db.tables.nodeAppPolicies.Keys) by {
      forall i | 0 <= i < |rows| ensures rows[i] in db.tables.nodeAppPolicies {
        assert rows[i] in rows;
      }
    }
    var missing;
    failed, missing := DeletePolicyRows(db, rows);
    if failed || missing {
      return;
    }
    assert Elements(rows) == PoliciesOf(old(db.tables), a);
    var affected;
    ok, affected := db.Write(DeleteNodeApp(a));
    failed := !ok;
  }

  /** A row that is not there ends the loop early, again without an error. */
  method ForceDeleteIfacePolicies(db: Db, node: Id) returns (failed: bool)
    requires db.Valid()
    modifies db
    ensures db.Progress()
    ensures !failed ==> db.tables == WithoutIfacePolicies(old(db.tables), node)
    ensures NoErrors(db.fate, old(db.calls), db.calls) ==> !failed
  {
    var ok := db.Query();
    if !ok {
      return true;
    }
    var rows := db.Rows(IfacePoliciesOf(db.tables, node));
    ghost var t := db.tables;
    for k := 0 to |rows|
      invariant db.Progress()
      invariant db.tables == t.(ifacePolicies := t.ifacePolicies - Elements(rows[..k]))
    {
      assert rows[k] in rows && rows[k] in t.ifacePolicies && rows[k] !in Elements(rows[..k]);
      var affected;
      ok, affected := db.Write(DeleteIfacePolicy(rows[k]));
      if !ok || !affected {
        return !ok;
      }
      ElementsStep(rows, k);
      assert db.tables.ifacePolicies == t.ifacePolicies - Elements(rows[..k + 1]);
    }
    assert rows[..|rows|] == rows && Elements(rows) == IfacePoliciesOf(t, node);
    return false;
  }

  /** A node can be deleted iff it exists and neither applications nor a DNS configuration are attached to it. */
  predicate Deletable(t: Tables, node: Id) {
    node in t.nodes && AppsOfNode(t, node) == {} && DnsOfNode(t, node) == {}
  }

  method DeleteNodeRow(db: Db, node: Id) returns (failed: bool)
    requires db.Valid()
    modifies db
    ensures db.Progress()
    ensures !failed ==>
      && Deletable(old(db.tables), node)
      && db.tables == old(db.tables).(nodes := old(db.tables).nodes - {node})
    ensures !Deletable(old(db.tables), node) ==> failed && db.tables == old(db.tables)
    ensures NoErrors(db.fate, old(db.calls), db.calls) ==> (failed <==> !Deletable(old(db.tables), node))
  {
    var ok := db.Query();
    if !ok || AppsOfNode(db.tables, node) != {} {
      return true;
    }
    ok := db.Query();
    if !ok || DnsOfNode(db.tables, node) != {} {
      return true;
    }
    ok := db.Query();
    if !ok || node !in db.tables.nodes {
      return true;
    }
    assert Guarded(db.tables, DeleteNode(node)) by {
      assert forall i <- db.tables.nodeApps :: i !in AppsOfNode(db.tables, node);
      assert forall i <- db.tables.nodeDns :: i !in DnsOfNode(db.tables, node);
    }
    var affected;
    ok, affected := db.Write(DeleteNode(node));
    failed := !ok || !affected;
  }

  /** DELETE /nodes/{node_id}: forced deletion of an existing node, if no database call fails, removes all and only the
      rows of the node; unforced deletion removes the node alone. Integrity holds after every single statement even if
      calls fail. */
  method DeleteNodeById(db: Db, node: Id, forced: bool) returns (failed: bool)
    requires db.Valid()
    modifies db
    ensures db.Progress()
    ensures forced && !failed ==> db.tables == WithoutNode(old(db.tables), node)
    ensures forced && NoErrors(db.fate, old(db.calls), db.calls) ==> (failed <==> node !in old(db.tables).nodes)
    ensures !forced && !failed ==> db.tables == old(db.tables).(nodes := old(db.tables).nodes - {node})
    ensures !forced && NoErrors(db.fate, old(db.calls), db.calls) ==> (failed <==> !Deletable(old(db.tables), node))
    ensures NoErrors(db.fate, old(db.calls), db.calls) && failed ==>
      db.tables == if forced then WithoutRowsOf(old(db.tables), node) else old(db.tables)
  {
    if forced {
      failed := ForceDeleteDns(db, node);
      if failed {
        return;
      }
      failed := ForceDeleteApps(db, node);
      if failed {
        return;
      }
      failed := ForceDeleteIfacePolicies(db, node);
      if failed {
        return;
      }
      GuardPasses(old(db.tables), node);
    }
    failed := DeleteNodeRow(db, node);
  }

  lemma GuardPasses(t: Tables, node: Id)
    ensures var rest := WithoutRowsOf(t, node);
      rest.nodes == t.nodes && AppsOfNode(rest, node) == {} && DnsOfNode(rest, node) == {}
  {
  }

  /** The cascade keeps integrity and leaves nothing of the node. */
  lemma CascadeKeepsIntegrity(t: Tables, node: Id)
    requires Sound(t)
    ensures var rest := WithoutNode(t, node);
      && Sound(rest) && rest.nodes == t.nodes - {node}
      && AppsOfNode(rest, node) == {} && DnsOfNode(rest, node) == {} && IfacePoliciesOf(rest, node) == {}
  {
    GuardPasses(t, node);
  }

  /** Every other node keeps its applications with their policies and its interface policies. */
  lemma CascadeSparesOtherApps(t: Tables, node: Id, other: Id)
    requires Sound(t) && other != node
    ensures var rest := WithoutNode(t, node);
      && rest.apps == t.apps && rest.policies == t.policies
      && AppsOfNode(rest, other) == AppsOfNode(t, other)
      && (forall a <- AppsOfNode(t, other) :: rest.nodeApps[a] == t.nodeApps[a] && PoliciesOf(rest, a) == PoliciesOf(t, a))
      && IfacePoliciesOf(rest, other) == IfacePoliciesOf(t, other)
  {
    var rest := WithoutNode(t, node);
    assert AppsOfNode(rest, other) == AppsOfNode(t, other);
    forall a <- AppsOfNode(t, other) ensures PoliciesOf(rest, a) == PoliciesOf(t, a) {
    }
  }

  /** Every other node keeps its DNS configuration with its aliases. */
  lemma CascadeSparesOtherDns(t: Tables, node: Id, other: Id)
    requires Sound(t) && other != node
    ensures var rest := WithoutNode(t, node);
      && DnsOfNode(rest, other) == DnsOfNode(t, other)
      && (forall d <- DnsOfNode(t, other) ::
            && rest.nodeDns[d] == t.nodeDns[d]
            && t.nodeDns[d].config in rest.dnsConfigs
            && AliasesOf(rest, t.nodeDns[d].config) == AliasesOf(t, t.nodeDns[d].config))
  {
    var rest := WithoutNode(t, node);
    assert DnsOfNode(rest, other) == DnsOfNode(t, other);
    forall d <- DnsOfNode(t, other) ensures t.nodeDns[d].config !in ConfigsOf(t, node) {
    }
  }
}

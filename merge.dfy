/** `add_server`'s loop as a specification: the imported entries are taken in
    document order and each name is skipped (already registered), failed
    (rejected by the security gate) or added. The gate is a parameter; the
    installer passes `validate_server_config` under the whitelist in force. */
module Merge {
  import opened Security

  /** The registry and the three name lists after some of the imported
      entries have been taken. */
  datatype MergeState = MergeState(
    servers: map<string, ServerEntry>,
    added: seq<string>,
    skipped: seq<string>,
    failed: seq<string>)

  /** One iteration of the loop. */
  function MergeStep(st: MergeState, item: (string, ServerEntry), gate: ServerEntry -> bool): MergeState {
    var (name, entry) := item;
    if name in st.servers then st.(skipped := st.skipped + [name])
    else if !gate(entry) then st.(failed := st.failed + [name])
    else st.(servers := st.servers[name := entry], added := st.added + [name])
  }

  /** The loop over `items`, starting from `servers` and empty lists. */
  function MergeAll(servers: map<string, ServerEntry>, items: seq<(string, ServerEntry)>, gate: ServerEntry -> bool): MergeState
    decreases |items|
  {
    if items == [] then MergeState(servers, [], [], [])
    else MergeStep(MergeAll(servers, items[..|items| - 1], gate), items[|items| - 1], gate)
  }

  function ItemNames(items: seq<(string, ServerEntry)>): (r: seq<string>)
    ensures |r| == |items| && forall i :: 0 <= i < |items| ==> r[i] == items[i].0
  {
    seq(|items|, i requires 0 <= i < |items| => items[i].0)
  }

  /** The keys of a JSON object are distinct. */
  predicate KeysDistinct(items: seq<(string, ServerEntry)>) {
    forall i, j :: 0 <= i < j < |items| ==> items[i].0 != items[j].0
  }

  /** Entries registered before the merge keep their names and values. */
  lemma {:induction false} MergeKeepsExisting(servers: map<string, ServerEntry>, items: seq<(string, ServerEntry)>, gate: ServerEntry -> bool)
    ensures var r := MergeAll(servers, items, gate);
      forall k :: k in servers ==> k in r.servers && r.servers[k] == servers[k]
    decreases |items|
  {
    if items != [] {
      MergeKeepsExisting(servers, items[..|items| - 1], gate);
    }
  }

  /** The registry grows by exactly the added names. */
  lemma {:induction false} MergeDomain(servers: map<string, ServerEntry>, items: seq<(string, ServerEntry)>, gate: ServerEntry -> bool)
    ensures var r := MergeAll(servers, items, gate);
      r.servers.Keys == servers.Keys + (set n | n in r.added)
    decreases |items|
  {
    if items != [] {
      MergeDomain(servers, items[..|items| - 1], gate);
    }
  }

  /** Each added name holds an imported entry that passed the security gate. */
  lemma {:induction false} MergeAdds(servers: map<string, ServerEntry>, items: seq<(string, ServerEntry)>, gate: ServerEntry -> bool, n: string)
    requires n in MergeAll(servers, items, gate).added
    ensures n in MergeAll(servers, items, gate).servers
    ensures exists i :: (0 <= i < |items| && items[i].0 == n
      && MergeAll(servers, items, gate).servers[n] == items[i].1
      && gate(items[i].1))
    decreases |items|
  {
    var prefix := items[..|items| - 1];
    var last := |items| - 1;
    var st := MergeAll(servers, prefix, gate);
    var r := MergeAll(servers, items, gate);
    if n in st.added {
      MergeAdds(servers, prefix, gate, n);
      MergeDomain(servers, prefix, gate);
      var i :| 0 <= i < |prefix| && prefix[i].0 == n && st.servers[n] == prefix[i].1
             && gate(prefix[i].1);
      assert items[i] == prefix[i];
      assert n in st.servers;
      assert r.servers[n] == st.servers[n];
    } else {
      assert n == items[last].0;
      assert r.servers[n] == items[last].1;
    }
  }

  /** Every imported name lands in exactly one of the three lists. */
  lemma {:induction false} MergePartition(servers: map<string, ServerEntry>, items: seq<(string, ServerEntry)>, gate: ServerEntry -> bool)
    ensures var r := MergeAll(servers, items, gate);
      multiset(r.added + r.skipped + r.failed) == multiset(ItemNames(items))
    decreases |items|
  {
    if items != [] {
      var prefix := items[..|items| - 1];
      var last := items[|items| - 1];
      MergePartition(servers, prefix, gate);
      PartitionStep(MergeAll(servers, prefix, gate), last, gate);
      assert ItemNames(items) == ItemNames(prefix) + [last.0];
    }
  }

  /** One iteration puts its name in exactly one list. */
  lemma PartitionStep(st: MergeState, item: (string, ServerEntry), gate: ServerEntry -> bool)
    ensures var r := MergeStep(st, item, gate);
      multiset(r.added + r.skipped + r.failed) == multiset(st.added + st.skipped + st.failed) + multiset{item.0}
  {
    var r := MergeStep(st, item, gate);
    assert multiset(r.added + r.skipped + r.failed) == multiset(r.added) + multiset(r.skipped) + multiset(r.failed);
    assert multiset(st.added + st.skipped + st.failed) == multiset(st.added) + multiset(st.skipped) + multiset(st.failed);
  }

  /** With distinct imported names each one is classified on its own: skipped
      exactly when already registered, added exactly when new and accepted,
      failed exactly when new and rejected; failed names are not registered. */
  lemma {:induction false} MergeClassifies(servers: map<string, ServerEntry>, items: seq<(string, ServerEntry)>, gate: ServerEntry -> bool, i: int)
    requires KeysDistinct(items) && 0 <= i < |items|
    ensures var r := MergeAll(servers, items, gate);
      var (name, entry) := items[i];
      (name in r.skipped <==> name in servers)
      && (name in r.added <==> name !in servers && gate(entry))
      && (name in r.failed <==> name !in servers && !gate(entry))
      && (name in r.failed ==> name !in r.servers)
    decreases |items|
  {
    var prefix := items[..|items| - 1];
    var last := |items| - 1;
    var st := MergeAll(servers, prefix, gate);
    assert KeysDistinct(prefix) by {
      forall a, b | 0 <= a < b < |prefix| ensures prefix[a].0 != prefix[b].0 {
        assert prefix[a] == items[a] && prefix[b] == items[b];
      }
    }
    MergeDomain(servers, prefix, gate);
    NamesFromPrefix(servers, prefix, gate);
    var name := items[last].0;
    assert name !in ItemNames(prefix) by {
      forall a | 0 <= a < |prefix| ensures ItemNames(prefix)[a] != name {
        assert prefix[a] == items[a];
      }
    }
    if i < last {
      MergeClassifies(servers, prefix, gate, i);
      assert prefix[i] == items[i];
      assert items[i].0 != name;
    } else {
      assert name !in st.added && name !in st.skipped && name !in st.failed;
    }
  }

  /** The lists only hold imported names. */
  lemma {:induction false} NamesFromPrefix(servers: map<string, ServerEntry>, items: seq<(string, ServerEntry)>, gate: ServerEntry -> bool)
    ensures var r := MergeAll(servers, items, gate);
      forall n :: (n in r.added || n in r.skipped || n in r.failed) ==> n in ItemNames(items)
    decreases |items|
  {
    if items != [] {
      var prefix := items[..|items| - 1];
      NamesFromPrefix(servers, prefix, gate);
      assert ItemNames(items) == ItemNames(prefix) + [items[|items| - 1].0];
    }
  }

  /** `add_server` reports success exactly when something was added or skipped. */
  function MergeOk(st: MergeState): bool {
    |st.added| > 0 || |st.skipped| > 0
  }
}

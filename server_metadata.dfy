/**
  Sets and/or deletes metadata on an existing compute instance
  (os_server_metadata). The instance is looked up at most once; the requested
  pairs are compared with its metadata pair by pair; the keys to delete are
  filtered down to those it has; then at most one `set_meta` call and at most
  one `delete_meta` call follow, in that order.
 */
module ServerMetadata {
  import opened Cloud

  /** The module's parameters: the instance by name or id, the pairs to set
      and the keys to delete (either may be omitted). */
  datatype Request = Request(server: string, setPairs: Option<map<string, string>>, deleteKeys: Option<seq<string>>)

  /** The pairs to set once an omitted parameter is replaced by an empty mapping. */
  function SetPairs(req: Request): (m: map<string, string>) {
    if req.setPairs.Some? then req.setPairs.value else map[]
  }

  /** The keys to delete once an omitted parameter is replaced by an empty list. */
  function DeleteKeys(req: Request): (keys: seq<string>) {
    if req.deleteKeys.Some? then req.deleteKeys.value else []
  }

  /** Nothing to set and nothing to delete. */
  predicate IsEmpty(req: Request) {
    SetPairs(req) == map[] && DeleteKeys(req) == []
  }

  /** The requested pairs are not all among the observed pairs: some key is
      missing, or present with a different value. */
  function HasSetChanges(requested: map<string, string>, observed: map<string, string>): (r: bool)
    ensures r <==> exists k :: k in requested && (k !in observed || observed[k] != requested[k])
  {
    if requested.Items <= observed.Items then
      assert forall k :: k in requested ==> (k, requested[k]) in observed.Items;
      false
    else
      var p :| p in requested.Items && p !in observed.Items;
      assert p.0 in requested && requested[p.0] == p.1;
      true
  }

  /** The requested keys that the observed metadata has, in request order
      (duplicates kept). */
  function PresentKeys(keys: seq<string>, observed: map<string, string>): (r: seq<string>)
    ensures |r| <= |keys|
    ensures forall i :: 0 <= i < |r| ==> r[i] in keys && r[i] in observed
  {
    if keys == [] then []
    else (if keys[0] in observed then [keys[0]] else []) + PresentKeys(keys[1..], observed)
  }

  lemma {:induction false} PresentKeysAppend(a: seq<string>, b: seq<string>, observed: map<string, string>)
    ensures PresentKeys(a + b, observed) == PresentKeys(a, observed) + PresentKeys(b, observed)
  {
    if a == [] {
      assert a + b == b;
    } else {
      assert (a + b)[1..] == a[1..] + b;
      PresentKeysAppend(a[1..], b, observed);
    }
  }

  /** A key is in the filtered list exactly when it was requested and is present. */
  lemma {:induction false} PresentKeysMembers(keys: seq<string>, observed: map<string, string>)
    ensures forall k :: k in PresentKeys(keys, observed) <==> k in keys && k in observed
    ensures PresentKeys(keys, observed) == [] <==> forall k :: k in keys ==> k !in observed
  {
    if keys != [] {
      PresentKeysMembers(keys[1..], observed);
      assert keys == [keys[0]] + keys[1..];
    }
  }

  /** Each present key occurs as often as it was requested; absent keys not at all. */
  lemma {:induction false} PresentKeysCount(keys: seq<string>, observed: map<string, string>, k: string)
    ensures multiset(PresentKeys(keys, observed))[k] == if k in observed then multiset(keys)[k] else 0
  {
    if keys != [] {
      PresentKeysCount(keys[1..], observed, k);
      assert keys == [keys[0]] + keys[1..];
    }
  }

  /** `a` is `b` with some elements dropped and the rest in their order. */
  predicate IsSubsequence(a: seq<string>, b: seq<string>) {
    if a == [] then true
    else if b == [] then false
    else if a[0] == b[0] then IsSubsequence(a[1..], b[1..])
    else IsSubsequence(a, b[1..])
  }

  /** The filtered keys keep the request order. */
  lemma {:induction false} PresentKeysInOrder(keys: seq<string>, observed: map<string, string>)
    ensures IsSubsequence(PresentKeys(keys, observed), keys)
  {
    if keys != [] {
      PresentKeysInOrder(keys[1..], observed);
      var rest := PresentKeys(keys[1..], observed);
      if keys[0] in observed {
        assert PresentKeys(keys, observed) == [keys[0]] + rest;
      } else {
        assert PresentKeys(keys, observed) == rest;
        SubsequenceOfTail(rest, keys);
      }
    }
  }

  lemma {:induction false} SubsequenceOfTail(a: seq<string>, b: seq<string>)
    requires b != [] && IsSubsequence(a, b[1..])
    ensures IsSubsequence(a, b)
    decreases |b|, 0
  {
    if a != [] && a[0] == b[0] {
      SubsequenceDropHead(a, b[1..]);
    }
  }

  lemma {:induction false} SubsequenceDropHead(a: seq<string>, b: seq<string>)
    requires a != [] && IsSubsequence(a, b)
    ensures IsSubsequence(a[1..], b)
    decreases |b|, 1
  {
    if b != [] {
      if a[0] == b[0] {
        SubsequenceOfTail(a[1..], b);
      } else {
        SubsequenceDropHead(a, b[1..]);
        SubsequenceOfTail(a[1..], b);
      }
    }
  }

  /** The whole invocation, as a function of the request, the lookup result
      the cloud would give and the check-mode flag. */
  function Reconcile(req: Request, lookup: Lookup, checkMode: bool): (r: Trace)
    ensures r.log == [] <==> IsEmpty(req)
    ensures r.log != [] ==> r.log[0] == GetServer(req.server)
    ensures forall i :: 1 <= i < |r.log| ==> r.log[i].IsWrite()
    ensures |r.log| <= 3 && (checkMode ==> |r.log| <= 1)
    ensures r.outcome.Fail? <==> !IsEmpty(req) && !lookup.Found?
  {
    var setPairs := SetPairs(req);
    var deleteKeys := DeleteKeys(req);
    if IsEmpty(req) then Trace(Exit(false), [])
    else
      var fetched := [GetServer(req.server)];
      if !lookup.Found? then Trace(LookupFailure(lookup), fetched)
      else
        var server := lookup.server;
        var hasSetChanges := HasSetChanges(setPairs, server.metadata);
        var metaToDelete := PresentKeys(deleteKeys, server.metadata);
        var hasChanges := hasSetChanges || metaToDelete != [];
        if checkMode || !hasChanges then Trace(Exit(hasChanges), fetched)
        else
          Trace(Exit(true), fetched
                            + (if hasSetChanges then [SetMeta(server.id, setPairs)] else [])
                            + (if metaToDelete != [] then [DeleteMeta(server.id, metaToDelete)] else []))
  }

  /** The module's main procedure, step by step. */
  method Execute(req: Request, lookup: Lookup, checkMode: bool) returns (outcome: Outcome, log: seq<Action>)
    ensures Trace(outcome, log) == Reconcile(req, lookup, checkMode)
  {
    var setPairs := req.setPairs;
    var deleteKeys := req.deleteKeys;
    if setPairs.None? {
      setPairs := Some(map[]);
    }
    if deleteKeys.None? {
      deleteKeys := Some([]);
    }
    var wanted, dropped := setPairs.value, deleteKeys.value;

    if wanted == map[] && dropped == [] {
      return Exit(false), [];
    }

    log := [GetServer(req.server)];
    if !lookup.Found? {
      return LookupFailure(lookup), log;
    }
    var server := lookup.server;

    var hasSetChanges := !(wanted.Items <= server.metadata.Items);

    var metaToDelete: seq<string> := [];
    for i := 0 to |dropped|
      invariant metaToDelete == PresentKeys(dropped[..i], server.metadata)
    {
      PresentKeysAppend(dropped[..i], [dropped[i]], server.metadata);
      assert dropped[..i + 1] == dropped[..i] + [dropped[i]];
      if dropped[i] in server.metadata {
        metaToDelete := metaToDelete + [dropped[i]];
      }
    }
    assert dropped[..|dropped|] == dropped;

    var hasChanges := hasSetChanges || metaToDelete != [];

    if checkMode {
      return Exit(hasChanges), log;
    }
    if !hasChanges {
      return Exit(false), log;
    }
    if hasSetChanges {
      log := log + [SetMeta(server.id, wanted)];
    }
    if metaToDelete != [] {
      log := log + [DeleteMeta(server.id, metaToDelete)];
    }
    outcome := Exit(true);
  }

  // ---------------------------------------------------------------------
  // Properties of an invocation

  /** The instance is looked up exactly when the request is not empty; an
      empty request reports no change and makes no call at all. */
  lemma EmptyRequestShortCircuits(req: Request, lookup: Lookup, checkMode: bool)
    ensures var t := Reconcile(req, lookup, checkMode);
      && (IsEmpty(req) ==> t == Trace(Exit(false), []))
      && (!IsEmpty(req) ==> |t.log| > 0 && t.log[0] == GetServer(req.server))
  {
  }

  /** A lookup without a server fails the invocation before any write. */
  lemma LookupFailureWritesNothing(req: Request, lookup: Lookup, checkMode: bool)
    requires !IsEmpty(req) && !lookup.Found?
    ensures Reconcile(req, lookup, checkMode) == Trace(LookupFailure(lookup), [GetServer(req.server)])
    ensures Reconcile(req, lookup, checkMode).outcome.Fail?
    ensures Writes(Reconcile(req, lookup, checkMode).log) == []
  {
  }

  /** `changed` is reported exactly when some requested pair does not hold
      yet or some requested key is present, in check mode and otherwise. */
  lemma {:induction false} ChangedIff(req: Request, server: Server, checkMode: bool)
    ensures Reconcile(req, Found(server), checkMode).outcome == Exit(
      (exists k :: k in SetPairs(req) && (k !in server.metadata || server.metadata[k] != SetPairs(req)[k]))
      || (exists k :: k in DeleteKeys(req) && k in server.metadata))
  {
    var keys := DeleteKeys(req);
    var present := PresentKeys(keys, server.metadata);
    PresentKeysMembers(keys, server.metadata);
    assert present != [] <==> exists k :: k in keys && k in server.metadata by {
      if present != [] {
        assert present[0] in present;
      }
    }
  }

  /** Check mode looks the instance up but never writes. */
  lemma CheckModeWritesNothing(req: Request, lookup: Lookup)
    ensures Writes(Reconcile(req, lookup, true).log) == []
    ensures |Reconcile(req, lookup, true).log| <= 1
  {
  }

  /** When nothing would change, no write is made and `changed` is false. */
  lemma NoChangesNoWrites(req: Request, server: Server, checkMode: bool)
    requires !HasSetChanges(SetPairs(req), server.metadata)
    requires PresentKeys(DeleteKeys(req), server.metadata) == []
    ensures Reconcile(req, Found(server), checkMode).outcome == Exit(false)
    ensures Writes(Reconcile(req, Found(server), checkMode).log) == []
  {
  }

  /** Outside check mode the writes are: one `set_meta` carrying the whole
      requested mapping when some pair differs, then one `delete_meta`
      carrying exactly the present requested keys when there are any, and
      nothing else. */
  lemma {:induction false} DispatchOrder(req: Request, server: Server)
    ensures var w := Writes(Reconcile(req, Found(server), false).log);
      && w == (if HasSetChanges(SetPairs(req), server.metadata) then [SetMeta(server.id, SetPairs(req))] else [])
            + (if PresentKeys(DeleteKeys(req), server.metadata) != []
               then [DeleteMeta(server.id, PresentKeys(DeleteKeys(req), server.metadata))] else [])
  {
    var setPart := if HasSetChanges(SetPairs(req), server.metadata) then [SetMeta(server.id, SetPairs(req))] else [];
    var del := PresentKeys(DeleteKeys(req), server.metadata);
    var delPart := if del != [] then [DeleteMeta(server.id, del)] else [];
    var fetched := [GetServer(req.server)];
    assert Writes(fetched) == [];
    if IsEmpty(req) {
      assert Reconcile(req, Found(server), false).log == [];
    } else if setPart + delPart == [] {
      assert Reconcile(req, Found(server), false).log == fetched;
    } else {
      assert Reconcile(req, Found(server), false).log == fetched + setPart + delPart;
      WritesAppend(fetched + setPart, delPart);
      WritesAppend(fetched, setPart);
      assert Writes(setPart) == setPart;
      assert Writes(delPart) == delPart;
    }
  }

  /** The key filter reads the snapshot taken before any write: a key both
      set and deleted that the instance did not have is set and not deleted. */
  lemma SetAndDeleteOfAbsentKey(req: Request, server: Server, k: string)
    requires k in SetPairs(req) && k in DeleteKeys(req) && k !in server.metadata
    ensures var log := Reconcile(req, Found(server), false).log;
      && SetMeta(server.id, SetPairs(req)) in log
      && forall i :: 0 <= i < |log| && log[i].DeleteMeta? ==> k !in log[i].keys
  {
    PresentKeysMembers(DeleteKeys(req), server.metadata);
  }

  /** The metadata the instance has after an invocation, when the cloud
      applies `set_meta` as an upsert and `delete_meta` as a removal. */
  function After(req: Request, server: Server, checkMode: bool): (s': Server) {
    ApplyLog(server, Reconcile(req, Found(server), checkMode).log)
  }

  /** Re-running a request on the instance it produced reports no change,
      provided no key is both set and deleted. */
  lemma {:induction false} RerunIsNoOp(req: Request, server: Server, recheckMode: bool)
    requires forall k :: k in DeleteKeys(req) ==> k !in SetPairs(req)
    ensures Reconcile(req, Found(After(req, server, false)), recheckMode).outcome == Exit(false)
  {
    var checkMode := false;
    var setPairs, keys := SetPairs(req), DeleteKeys(req);
    if IsEmpty(req) {
      return;
    }
    var m := server.metadata;
    var del := PresentKeys(keys, m);
    PresentKeysMembers(keys, m);
    var t := Reconcile(req, Found(server), checkMode);
    var s' := ApplyLog(server, t.log);
    ghost var m' := s'.metadata;
    if !(HasSetChanges(setPairs, m) || del != []) {
      assert t.log == [GetServer(req.server)];
      assert Writes(t.log) == [];
      ReadOnlyLogKeepsServer(server, t.log);
      assert m' == m;
    } else {
      var setPart := if HasSetChanges(setPairs, m) then [SetMeta(server.id, setPairs)] else [];
      var delPart := if del != [] then [DeleteMeta(server.id, del)] else [];
      assert t.log == [GetServer(req.server)] + setPart + delPart;
      var m1 := if setPart != [] then m + setPairs else m;
      var s1 := server.(metadata := m1);
      ApplyLogSteps(server, req.server, setPart, delPart, s1);
      assert m' == if delPart != [] then m1 - (set k | k in del) else m1;
      assert forall k :: k in setPairs ==> k in m1 && m1[k] == setPairs[k];
      assert forall k :: k in keys ==> k !in m1 || k in del;
    }
    assert forall k :: k in setPairs ==> k in m' && m'[k] == setPairs[k];
    assert forall k :: k in keys ==> k !in m';
    PresentKeysMembers(keys, m');
  }

  /** The effect of the log of a writing invocation, step by step. */
  lemma ApplyLogSteps(server: Server, name: string, setPart: seq<Action>, delPart: seq<Action>, s1: Server)
    requires |setPart| <= 1 && |delPart| <= 1
    requires s1 == if setPart == [] then server else ApplyAction(server, setPart[0])
    ensures ApplyLog(server, [GetServer(name)] + setPart + delPart)
         == if delPart == [] then s1 else ApplyAction(s1, delPart[0])
  {
    var log := [GetServer(name)] + setPart + delPart;
    assert log[1..] == setPart + delPart;
    assert ApplyLog(server, log) == ApplyLog(server, setPart + delPart);
    if setPart != [] {
      assert (setPart + delPart)[1..] == delPart;
      assert ApplyLog(server, setPart + delPart) == ApplyLog(s1, delPart);
    } else {
      assert setPart + delPart == delPart;
    }
    if delPart != [] {
      assert delPart[1..] == [];
      assert ApplyLog(s1, delPart) == ApplyLog(ApplyAction(s1, delPart[0]), []);
    }
  }

  /** A key both set and deleted breaks the re-run property: the first run
      sets it (it was absent, so the filter drops it), the second deletes it. */
  lemma OverlapBreaksRerun()
    ensures var req := Request("vm1", Some(map["k" := "v"]), Some(["k"]));
      var server := Server("id1", "vm1", "ACTIVE", map[]);
      && Reconcile(req, Found(server), false).outcome == Exit(true)
      && After(req, server, false).metadata == map["k" := "v"]
      && Reconcile(req, Found(After(req, server, false)), false).outcome == Exit(true)
  {
  }

  /** A check-mode run leaves the instance as it was, so a later real run
      behaves exactly as it would have without it. */
  lemma CheckModeLeavesServer(req: Request, server: Server, checkMode: bool)
    ensures After(req, server, true) == server
    ensures Reconcile(req, Found(After(req, server, true)), checkMode) == Reconcile(req, Found(server), checkMode)
  {
    CheckModeWritesNothing(req, Found(server));
    ReadOnlyLogKeepsServer(server, Reconcile(req, Found(server), true).log);
  }

  /** The worked example: one key already holds, one is missing, and the key
      to delete is absent; the full mapping is set and nothing is deleted. */
  lemma ExampleSetOneMissingKey()
    ensures var req := Request("vm1", Some(map["key1" := "value1", "key2" := "value2"]), Some(["key3"]));
      var server := Server("id1", "vm1", "ACTIVE", map["key1" := "value1"]);
      Reconcile(req, Found(server), false)
        == Trace(Exit(true), [GetServer("vm1"), SetMeta("id1", map["key1" := "value1", "key2" := "value2"])])
  {
    var observed := map["key1" := "value1"];
    assert "key2" in map["key1" := "value1", "key2" := "value2"];
    assert "key2" !in observed;
    assert HasSetChanges(map["key1" := "value1", "key2" := "value2"], observed);
    assert PresentKeys(["key3"], observed) == [];
  }
}

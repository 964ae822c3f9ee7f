/**
  Renames an existing compute instance (os_server_rename): one lookup, a
  comparison of the current name with the requested one (made before check
  mode is consulted), and at most one update call.
 */
module ServerRename {
  import opened Cloud

  /** The module's parameters: the instance by name or id, and its new name. */
  datatype Request = Request(server: string, name: string)

  /** The whole invocation, as a function of the request, the lookup result
      the cloud would give and the check-mode flag. */
  function Reconcile(req: Request, lookup: Lookup, checkMode: bool): (r: Trace)
    ensures 1 <= |r.log| <= 2 && r.log[0] == GetServer(req.server)
    ensures |r.log| == 2 ==> !checkMode && lookup.Found? && r.log[1] == Update(lookup.server.id, req.name)
    ensures r.outcome.Exit? <==> lookup.Found?
    ensures r.outcome == Exit(true) ==> lookup.Found? && lookup.server.name != req.name
  {
    var fetched := [GetServer(req.server)];
    if !lookup.Found? then Trace(LookupFailure(lookup), fetched)
    else
      var server := lookup.server;
      if server.name == req.name then Trace(Exit(false), fetched)
      else if checkMode then Trace(Exit(true), fetched)
      else Trace(Exit(true), fetched + [Update(server.id, req.name)])
  }

  /** A lookup without a server fails the invocation; no update is made. */
  lemma NotFoundNoUpdate(req: Request, checkMode: bool)
    ensures Reconcile(req, NotFound, checkMode) == Trace(Fail(NotFoundMessage, None), [GetServer(req.server)])
    ensures Writes(Reconcile(req, NotFound, checkMode).log) == []
  {
  }

  /** A cloud exception while looking the instance up becomes a failure
      carrying its message and its extra data. */
  lemma CloudErrorFails(req: Request, message: string, extra: Option<ExtraData>, checkMode: bool)
    ensures Reconcile(req, CloudError(message, extra), checkMode).outcome == Fail(message, extra)
    ensures Writes(Reconcile(req, CloudError(message, extra), checkMode).log) == []
  {
  }

  /** `changed` is reported exactly when the current name differs, in check
      mode and otherwise. */
  lemma ChangedIffNameDiffers(req: Request, server: Server, checkMode: bool)
    ensures Reconcile(req, Found(server), checkMode).outcome == Exit(server.name != req.name)
  {
  }

  /** A name that already holds makes no update, even in check mode. */
  lemma SameNameNoUpdate(req: Request, server: Server, checkMode: bool)
    requires server.name == req.name
    ensures Reconcile(req, Found(server), checkMode) == Trace(Exit(false), [GetServer(req.server)])
    ensures Writes(Reconcile(req, Found(server), checkMode).log) == []
  {
  }

  /** Check mode with a different name reports a change and makes no update. */
  lemma CheckModeNoUpdate(req: Request, server: Server)
    requires server.name != req.name
    ensures Reconcile(req, Found(server), true).outcome == Exit(true)
    ensures Writes(Reconcile(req, Found(server), true).log) == []
  {
  }

  /** Otherwise the one write is the update to the requested name. */
  lemma SingleUpdate(req: Request, server: Server)
    requires server.name != req.name
    ensures Reconcile(req, Found(server), false).outcome == Exit(true)
    ensures Writes(Reconcile(req, Found(server), false).log) == [Update(server.id, req.name)]
  {
  }

  /** Re-running the request on the instance it produced reports no change. */
  lemma RerunIsNoOp(req: Request, server: Server, recheckMode: bool)
    ensures var after := ApplyLog(server, Reconcile(req, Found(server), false).log);
      && after.name == req.name
      && Reconcile(req, Found(after), recheckMode).outcome == Exit(false)
  {
    var log := Reconcile(req, Found(server), false).log;
    if server.name != req.name {
      assert log[1..] == [Update(server.id, req.name)];
      assert log[1..][1..] == [];
      assert ApplyLog(server, log) == ApplyLog(server, log[1..]);
      assert ApplyLog(server, log[1..]) == ApplyLog(server.(name := req.name), []);
    } else {
      assert log[1..] == [];
    }
  }
}

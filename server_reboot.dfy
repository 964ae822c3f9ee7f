/**
  Reboots an existing compute instance (os_server_reboot). After the
  not-found, check-mode and already-rebooting pre-checks it makes one reboot
  call; when asked to wait, it sleeps once and then polls the instance until
  it is ACTIVE, reaches ERROR, or the deadline passes.
 */
module ServerReboot {
  import opened Cloud

  /** The `type` parameter: `soft` or `hard`. */
  datatype RebootKind = Soft | Hard

  /** The module's parameters. `wait` is explicit: no default is assumed. */
  datatype Request = Request(server: string, kind: RebootKind, wait: bool)

  /** One poll tick: the lookup raised, or it returned the instance with this status. */
  datatype Tick = Raised | Observed(status: string)

  const ErrorMessage: string := "Server reached ERROR state while rebooting."
  const TimeoutMessage: string := "Timeout waiting for server to complete reboot."

  /** Seconds slept after the reboot call, before the first poll. */
  const SettleSeconds: nat := 2

  /** The statuses of an instance that is already rebooting. */
  predicate IsRebooting(status: string) {
    status == "REBOOT" || status == "HARD_REBOOT"
  }

  /** The `type` parameter as the caller spells it. */
  function TypeParam(kind: RebootKind): (param: string) {
    match kind
    case Soft => "soft"
    case Hard => "hard"
  }

  function UpperChar(c: char): (u: char) {
    if 'a' <= c <= 'z' then (c as int - 32) as char else c
  }

  /** The string upper-cased letter by letter (on ASCII letters). */
  function Upper(s: string): (r: string)
    ensures |r| == |s|
    ensures forall i :: 0 <= i < |s| ==> r[i] == UpperChar(s[i])
  {
    if s == [] then [] else [UpperChar(s[0])] + Upper(s[1..])
  }

  /** The reboot type sent to the control plane. */
  lemma RebootTypeUpperCased()
    ensures Upper(TypeParam(Soft)) == "SOFT"
    ensures Upper(TypeParam(Hard)) == "HARD"
  {
  }

  /** A tick that ends the wait: the instance came back ACTIVE, or reached ERROR. */
  predicate Decisive(t: Tick) {
    t.Observed? && (t.status == "ACTIVE" || t.status == "ERROR")
  }

  /** How a decisive tick ends the invocation. */
  function Verdict(t: Tick): (o: Outcome)
    requires Decisive(t)
  {
    if t.status == "ACTIVE" then Exit(true) else Fail(ErrorMessage, None)
  }

  /** `n` lookups of the instance. */
  function Fetches(server: string, n: nat): (r: seq<Action>)
    ensures |r| == n
    ensures forall i :: 0 <= i < n ==> r[i] == GetServer(server)
  {
    if n == 0 then [] else [GetServer(server)] + Fetches(server, n - 1)
  }

  /** The wait loop over the ticks that fit before the deadline: every tick
      looks the instance up; a raised lookup and any status other than
      ACTIVE or ERROR keep waiting; running out of ticks is the timeout. */
  function Poll(server: string, ticks: seq<Tick>): (r: Trace)
    ensures r.outcome in {Exit(true), Fail(ErrorMessage, None), Fail(TimeoutMessage, None)}
    ensures |r.log| <= |ticks|
    ensures forall i :: 0 <= i < |r.log| ==> r.log[i] == GetServer(server)
  {
    if ticks == [] then Trace(Fail(TimeoutMessage, None), [])
    else if Decisive(ticks[0]) then Trace(Verdict(ticks[0]), [GetServer(server)])
    else
      var rest := Poll(server, ticks[1..]);
      Trace(rest.outcome, [GetServer(server)] + rest.log)
  }

  /** The whole invocation: the request, the pre-check lookup, the check-mode
      flag, and the ticks the wait would see. */
  function Reconcile(req: Request, lookup: Lookup, checkMode: bool, ticks: seq<Tick>): (r: Trace)
    ensures |r.log| >= 1 && r.log[0] == GetServer(req.server)
    ensures forall i :: 0 <= i < |r.log| && r.log[i].IsWrite() ==> i == 1 && r.log[i].Reboot?
    ensures forall i :: 0 <= i < |r.log| && r.log[i].Sleep? ==> i == 2 && req.wait
    ensures checkMode ==> |r.log| == 1
    ensures !req.wait ==> |r.log| <= 2
  {
    var fetched := [GetServer(req.server)];
    if !lookup.Found? then Trace(LookupFailure(lookup), fetched)
    else
      var server := lookup.server;
      if checkMode then Trace(Exit(!IsRebooting(server.status)), fetched)
      else if IsRebooting(server.status) then Trace(Exit(false), fetched)
      else
        var rebooted := fetched + [Reboot(server.id, Upper(TypeParam(req.kind)))];
        if !req.wait then Trace(Exit(true), rebooted)
        else
          var waited := Poll(req.server, ticks);
          Trace(waited.outcome, rebooted + [Sleep(SettleSeconds)] + waited.log)
  }

  /** The module's main procedure, step by step. */
  method Execute(req: Request, lookup: Lookup, checkMode: bool, ticks: seq<Tick>)
    returns (outcome: Outcome, log: seq<Action>)
    ensures Trace(outcome, log) == Reconcile(req, lookup, checkMode, ticks)
  {
    log := [GetServer(req.server)];
    if !lookup.Found? {
      return LookupFailure(lookup), log;
    }
    var server := lookup.server;

    if checkMode {
      return Exit(!IsRebooting(server.status)), log;
    }
    if IsRebooting(server.status) {
      return Exit(false), log;
    }

    log := log + [Reboot(server.id, Upper(TypeParam(req.kind)))];

    if !req.wait {
      return Exit(true), log;
    }

    log := log + [Sleep(SettleSeconds)];

    ghost var before := log;
    for i := 0 to |ticks|
      invariant |log| >= |before| && log[..|before|] == before
      invariant Poll(req.server, ticks)
             == Trace(Poll(req.server, ticks[i..]).outcome, log[|before|..] + Poll(req.server, ticks[i..]).log)
    {
      assert ticks[i..][1..] == ticks[i + 1..];
      log := log + [GetServer(req.server)];
      match ticks[i]
      case Raised =>
        continue;
      case Observed(status) =>
        if status == "ACTIVE" {
          return Exit(true), log;
        }
        if status == "ERROR" {
          return Fail(ErrorMessage, None), log;
        }
    }
    assert ticks[|ticks|..] == [];
    outcome := Fail(TimeoutMessage, None);
  }

  // ---------------------------------------------------------------------
  // Properties of the wait loop

  /** The wait only looks the instance up, at most once per tick. */
  lemma {:induction false} PollOnlyFetches(server: string, ticks: seq<Tick>)
    ensures var p := Poll(server, ticks);
      && |p.log| <= |ticks|
      && p.log == Fetches(server, |p.log|)
      && Writes(p.log) == []
  {
    if ticks != [] && !Decisive(ticks[0]) {
      PollOnlyFetches(server, ticks[1..]);
      var rest := Poll(server, ticks[1..]).log;
      assert Fetches(server, |rest| + 1) == [GetServer(server)] + Fetches(server, |rest|);
      assert Writes([GetServer(server)] + rest) == Writes(rest) by {
        WritesAppend([GetServer(server)], rest);
      }
    }
  }

  /** The first decisive tick ends the wait with its verdict, after one
      lookup per tick up to and including it. */
  lemma {:induction false} PollStopsAtFirstDecisive(server: string, ticks: seq<Tick>, j: nat)
    requires j < |ticks| && Decisive(ticks[j])
    requires forall i :: 0 <= i < j ==> !Decisive(ticks[i])
    ensures Poll(server, ticks) == Trace(Verdict(ticks[j]), Fetches(server, j + 1))
  {
    if j > 0 {
      PollStopsAtFirstDecisive(server, ticks[1..], j - 1);
      assert Fetches(server, j + 1) == [GetServer(server)] + Fetches(server, j);
    }
  }

  /** Without a decisive tick the wait times out, having looked the instance
      up on every tick. In particular, lookups that keep raising never end
      the wait by themselves. */
  lemma {:induction false} PollTimesOut(server: string, ticks: seq<Tick>)
    requires forall i :: 0 <= i < |ticks| ==> !Decisive(ticks[i])
    ensures Poll(server, ticks) == Trace(Fail(TimeoutMessage, None), Fetches(server, |ticks|))
  {
    if ticks != [] {
      PollTimesOut(server, ticks[1..]);
      assert Fetches(server, |ticks|) == [GetServer(server)] + Fetches(server, |ticks| - 1);
    }
  }

  /** A tick whose lookup raised, or that saw a status other than ACTIVE or
      ERROR, just costs one lookup: the wait goes on as from the next tick. */
  lemma PendingTickIsSkipped(server: string, t: Tick, rest: seq<Tick>)
    requires !Decisive(t)
    ensures Poll(server, [t] + rest)
         == Trace(Poll(server, rest).outcome, [GetServer(server)] + Poll(server, rest).log)
  {
  }

  /** The wait ends in exactly one of three ways. */
  lemma {:induction false} PollOutcomes(server: string, ticks: seq<Tick>)
    ensures Poll(server, ticks).outcome == Exit(true)
        <==> exists j :: 0 <= j < |ticks| && ticks[j] == Observed("ACTIVE")
                      && forall i :: 0 <= i < j ==> !Decisive(ticks[i])
  {
    if ticks != [] && !Decisive(ticks[0]) {
      PollOutcomes(server, ticks[1..]);
      if exists j :: 0 <= j < |ticks[1..]| && ticks[1..][j] == Observed("ACTIVE")
                  && forall i :: 0 <= i < j ==> !Decisive(ticks[1..][i]) {
        var j :| 0 <= j < |ticks[1..]| && ticks[1..][j] == Observed("ACTIVE")
               && forall i :: 0 <= i < j ==> !Decisive(ticks[1..][i]);
        assert forall i :: 0 <= i < j + 1 ==> !Decisive(ticks[i]) by {
          forall i | 0 <= i < j + 1 ensures !Decisive(ticks[i]) {
            if i > 0 {
              assert ticks[i] == ticks[1..][i - 1];
            }
          }
        }
        assert ticks[j + 1] == Observed("ACTIVE");
      }
      if exists j :: 0 <= j < |ticks| && ticks[j] == Observed("ACTIVE")
                  && forall i :: 0 <= i < j ==> !Decisive(ticks[i]) {
        var j :| 0 <= j < |ticks| && ticks[j] == Observed("ACTIVE")
               && forall i :: 0 <= i < j ==> !Decisive(ticks[i]);
        assert j > 0;
        assert ticks[1..][j - 1] == Observed("ACTIVE");
        assert forall i :: 0 <= i < j - 1 ==> !Decisive(ticks[1..][i]) by {
          forall i | 0 <= i < j - 1 ensures !Decisive(ticks[1..][i]) {
            assert ticks[1..][i] == ticks[i + 1];
          }
        }
      }
    }
  }

  // ---------------------------------------------------------------------
  // Properties of an invocation

  /** A lookup without a server fails the invocation; no reboot is made. */
  lemma NotFoundNoReboot(req: Request, lookup: Lookup, checkMode: bool, ticks: seq<Tick>)
    requires !lookup.Found?
    ensures Reconcile(req, lookup, checkMode, ticks) == Trace(LookupFailure(lookup), [GetServer(req.server)])
    ensures Reconcile(req, lookup, checkMode, ticks).outcome.Fail?
    ensures Writes(Reconcile(req, lookup, checkMode, ticks).log) == []
  {
  }

  /** Check mode reports whether a reboot would be made, and makes none. */
  lemma CheckModeNoReboot(req: Request, server: Server, ticks: seq<Tick>)
    ensures Reconcile(req, Found(server), true, ticks).outcome == Exit(!IsRebooting(server.status))
    ensures Writes(Reconcile(req, Found(server), true, ticks).log) == []
  {
  }

  /** An instance already rebooting is left alone: no second reboot is stacked. */
  lemma AlreadyRebootingNoReboot(req: Request, server: Server, checkMode: bool, ticks: seq<Tick>)
    requires IsRebooting(server.status)
    ensures Reconcile(req, Found(server), checkMode, ticks).outcome == Exit(false)
    ensures Writes(Reconcile(req, Found(server), checkMode, ticks).log) == []
  {
  }

  /** Otherwise exactly one write is made: the reboot, with the upper-cased
      type, right after the lookup. */
  lemma {:induction false} SingleReboot(req: Request, server: Server, ticks: seq<Tick>)
    requires !IsRebooting(server.status)
    ensures var log := Reconcile(req, Found(server), false, ticks).log;
      && |log| >= 2 && log[1] == Reboot(server.id, Upper(TypeParam(req.kind)))
      && Writes(log) == [Reboot(server.id, Upper(TypeParam(req.kind)))]
  {
    var reboot := Reboot(server.id, Upper(TypeParam(req.kind)));
    var rebooted := [GetServer(req.server), reboot];
    assert Writes(rebooted) == [reboot] by {
      WritesAppend([GetServer(req.server)], [reboot]);
      assert rebooted == [GetServer(req.server)] + [reboot];
    }
    if req.wait {
      var p := Poll(req.server, ticks);
      PollOnlyFetches(req.server, ticks);
      WritesAppend(rebooted, [Sleep(SettleSeconds)]);
      WritesAppend(rebooted + [Sleep(SettleSeconds)], p.log);
      assert Writes([Sleep(SettleSeconds)]) == [] by {
        assert [Sleep(SettleSeconds)][1..] == [];
      }
      assert Reconcile(req, Found(server), false, ticks).log == rebooted + [Sleep(SettleSeconds)] + p.log;
    }
  }

  /** No invocation makes more than one write. */
  lemma AtMostOneWrite(req: Request, lookup: Lookup, checkMode: bool, ticks: seq<Tick>)
    ensures |Writes(Reconcile(req, lookup, checkMode, ticks).log)| <= 1
  {
    assert Writes([GetServer(req.server)]) == [];
    if lookup.Found? && !checkMode && !IsRebooting(lookup.server.status) {
      SingleReboot(req, lookup.server, ticks);
    }
  }

  /** Without `wait` the invocation reports a change right after the reboot
      call: no sleep and no polling. */
  lemma NoWaitReturnsAfterReboot(req: Request, server: Server, ticks: seq<Tick>)
    requires !req.wait && !IsRebooting(server.status)
    ensures Reconcile(req, Found(server), false, ticks)
         == Trace(Exit(true), [GetServer(req.server), Reboot(server.id, Upper(TypeParam(req.kind)))])
  {
  }

  /** With `wait` the reboot call is followed by the one settle sleep, and then
      only by lookups; the outcome is the wait's. */
  lemma {:induction false} WaitSleepsThenPolls(req: Request, server: Server, ticks: seq<Tick>)
    requires req.wait && !IsRebooting(server.status)
    ensures var t := Reconcile(req, Found(server), false, ticks);
      && |t.log| >= 3 && t.log[2] == Sleep(SettleSeconds)
      && t.log[3..] == Poll(req.server, ticks).log
      && (forall i :: 3 <= i < |t.log| ==> t.log[i] == GetServer(req.server))
      && t.outcome == Poll(req.server, ticks).outcome
  {
    var p := Poll(req.server, ticks);
    PollOnlyFetches(req.server, ticks);
    var t := Reconcile(req, Found(server), false, ticks);
    assert t.log == [GetServer(req.server), Reboot(server.id, Upper(TypeParam(req.kind))), Sleep(SettleSeconds)] + p.log;
    assert forall i :: 3 <= i < |t.log| ==> t.log[i] == p.log[i - 3];
  }

  /** The worked example: the instance is ACTIVE, the first poll sees REBOOT,
      the second ACTIVE; the invocation reports a change. */
  lemma ExampleRebootConverges()
    ensures var req := Request("vm1", Soft, true);
      var server := Server("id1", "vm1", "ACTIVE", map[]);
      Reconcile(req, Found(server), false, [Observed("REBOOT"), Observed("ACTIVE")])
        == Trace(Exit(true), [GetServer("vm1"), Reboot("id1", "SOFT"), Sleep(2), GetServer("vm1"), GetServer("vm1")])
  {
    RebootTypeUpperCased();
    var ticks := [Observed("REBOOT"), Observed("ACTIVE")];
    assert ticks[1..] == [Observed("ACTIVE")];
  }
}

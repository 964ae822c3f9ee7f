/**
  Shared vocabulary of the three OpenStack server modules: the server record
  that the cloud's `get_server` returns, the outcome an invocation reports
  (`exit_json` / `fail_json`), and the log of calls it makes against the
  control plane.
 */
module Cloud {

  datatype Option<+T> = None | Some(value: T)

  /** The opaque structured payload an OpenStack cloud exception carries. */
  type ExtraData = map<string, string>

  /** One snapshot of a compute instance. */
  datatype Server = Server(id: string, name: string, status: string, metadata: map<string, string>)

  /** What the lookup of the instance by name or id gives back. `CloudError`
      stands for a cloud exception raised while connecting or fetching. */
  datatype Lookup =
    | Found(server: Server)
    | NotFound
    | CloudError(message: string, extraData: Option<ExtraData>)

  /** `exit_json(changed=...)` or `fail_json(msg=..., extra_data=...)`. */
  datatype Outcome = Exit(changed: bool) | Fail(msg: string, extraData: Option<ExtraData>)

  /** A call made against the control plane, in the order it is made. */
  datatype Action =
    | GetServer(nameOrId: string)
    | SetMeta(serverId: string, metadata: map<string, string>)
    | DeleteMeta(serverId: string, keys: seq<string>)
    | Reboot(serverId: string, rebootType: string)
    | Update(serverId: string, name: string)
    | Sleep(seconds: nat)
  {
    /** The calls that ask the control plane to change something. */
    predicate IsWrite() {
      SetMeta? || DeleteMeta? || Reboot? || Update?
    }
  }

  /** Everything one invocation does: what it reports and the calls it made. */
  datatype Trace = Trace(outcome: Outcome, log: seq<Action>)

  /** The message of the not-found failure: the code formats the missing
      server itself, which is `None` at that point. */
  const NotFoundMessage: string := "Could not find server None"

  /** The outcome shared by all three modules when the lookup does not produce a server. */
  function LookupFailure(lookup: Lookup): (o: Outcome)
    requires !lookup.Found?
    ensures o.Fail?
    ensures lookup.NotFound? ==> o == Fail(NotFoundMessage, None)
    ensures lookup.CloudError? ==> o.msg == lookup.message && o.extraData == lookup.extraData
  {
    match lookup
    case NotFound => Fail(NotFoundMessage, None)
    case CloudError(message, extra) => Fail(message, extra)
  }

  /** The write calls of a log, in the order they were made. */
  function Writes(log: seq<Action>): (w: seq<Action>)
    ensures |w| <= |log|
    ensures forall i :: 0 <= i < |w| ==> w[i].IsWrite() && w[i] in log
  {
    if log == [] then []
    else (if log[0].IsWrite() then [log[0]] else []) + Writes(log[1..])
  }

  lemma {:induction false} WritesAppend(a: seq<Action>, b: seq<Action>)
    ensures Writes(a + b) == Writes(a) + Writes(b)
  {
    if a == [] {
      assert a + b == b;
    } else {
      assert (a + b)[1..] == a[1..] + b;
      WritesAppend(a[1..], b);
    }
  }

  /** A log has no writes exactly when none of its calls is a write. */
  lemma {:induction false} WritesEmptyIff(log: seq<Action>)
    ensures Writes(log) == [] <==> forall i :: 0 <= i < |log| ==> !log[i].IsWrite()
  {
    if log != [] {
      WritesEmptyIff(log[1..]);
      assert forall i :: 1 <= i < |log| ==> log[i] == log[1..][i - 1];
    }
  }

  /** The effect of one call on the instance, as the control plane is assumed
      to apply it: `set_meta` upserts the given pairs, `delete_meta` removes
      the given keys, `update` renames; reads, sleeps and reboots leave the
      name and the metadata alone. */
  function ApplyAction(s: Server, a: Action): (s': Server) {
    match a
    case SetMeta(_, m) => s.(metadata := s.metadata + m)
    case DeleteMeta(_, keys) => s.(metadata := s.metadata - (set k | k in keys))
    case Update(_, n) => s.(name := n)
    case _ => s
  }

  /** The instance after every call of a log has taken effect, in order. */
  function ApplyLog(s: Server, log: seq<Action>): (s': Server)
    decreases log
  {
    if log == [] then s else ApplyLog(ApplyAction(s, log[0]), log[1..])
  }

  /** Only the writes of a log change the instance. */
  lemma {:induction false} ApplyOnlyWrites(s: Server, log: seq<Action>)
    ensures ApplyLog(s, log) == ApplyLog(s, Writes(log))
    decreases log
  {
    if log != [] {
      ApplyOnlyWrites(ApplyAction(s, log[0]), log[1..]);
      if log[0].IsWrite() {
        assert ([log[0]] + Writes(log[1..]))[1..] == Writes(log[1..]);
      } else {
        assert ApplyAction(s, log[0]) == s;
        assert Writes(log) == Writes(log[1..]);
      }
    }
  }

  /** A log without writes leaves the instance as it was. */
  lemma {:induction false} ReadOnlyLogKeepsServer(s: Server, log: seq<Action>)
    requires Writes(log) == []
    ensures ApplyLog(s, log) == s
  {
    ApplyOnlyWrites(s, log);
  }
}

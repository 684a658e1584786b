/** Event subscriptions and the settings of the event service. */
module Subscriptions {
  import opened Json
  import opened Registry
  import opened NumberSet
  import Decimal

  const BASE := "/redfish/v1/EventService/Subscriptions"
  const SUSPEND := "SuspendRetries"

  datatype Subscription = Subscription(destination: string, protocol: string, context: string, kind: string,
                                       policy: string)

  datatype Settings = Settings(attempts: int32, interval: int32, enabled: bool)

  datatype Service = Service(rows: seq<Row<Subscription>>, settings: Settings)

  datatype Request = MakeIt(num: nat, make: MakeRequest) | PatchOne(pid: string, one: PatchRequest)
                   | RemoveIt(rid: string) | PatchAll(all: SettingsRequest)

  datatype MakeRequest = MakeRequest(destination: Option<string>, protocol: Option<string>, context: Option<string>,
                                     policy: Option<string>, kind: Option<string>)

  datatype PatchRequest = PatchRequest(context: Option<string>, policy: Option<string>)

  datatype SettingsRequest = SettingsRequest(attempts: Option<int32>, interval: Option<int32>, enabled: Option<bool>)

  datatype Response = Created | Ok | BadRequest | Exception

  predicate IsPolicy(p: string) {
    p == "RetryForever" || p == SUSPEND || p == "TerminateAfterRetries"
  }

  // ----- The requests, as functions on the service -----

  function NewSubscription(r: MakeRequest): Subscription
    requires r.destination.Some? && r.protocol.Some?
  {
    Subscription(r.destination.value, r.protocol.value, Or(r.context, ""), Or(r.kind, "RedfishEvent"),
                 Or(r.policy, SUSPEND))
  }

  function Make(s: Service, num: nat, r: MakeRequest): (Service, Response) {
    if r.destination.None? || r.protocol.None? then (s, BadRequest)
    else (s.(rows := s.rows + [Row(num, NewSubscription(r))]), Created)
  }

  function PatchedOne(s: Service, id: string, r: PatchRequest): (Service, Response) {
    var i := FindRow(s.rows, id);
    if i == |s.rows| || (r.policy.Some? && !IsPolicy(r.policy.value)) || (r.context.None? && r.policy.None?)
    then (s, BadRequest)
    else
      var d := s.rows[i].data;
      (s.(rows := s.rows[i := s.rows[i].(data := d.(context := Or(r.context, d.context),
                                                    policy := Or(r.policy, d.policy)))]), Ok)
  }

  function Remove(s: Service, id: string): (Service, Response) {
    var (r, rows) := RemoveRow(s.rows, id);
    (s.(rows := rows), match r case Removed => Ok case NotFound => BadRequest case Thrown => Exception)
  }

  function PatchedAll(s: Service, r: SettingsRequest): (Service, Response) {
    if (r.attempts.Some? && r.attempts.value < 0) || (r.interval.Some? && r.interval.value < 1)
       || (r.attempts.None? && r.interval.None? && r.enabled.None?)
    then (s, BadRequest)
    else
      (s.(settings := Settings(Or(r.attempts, s.settings.attempts), Or(r.interval, s.settings.interval),
                               Or(r.enabled, s.settings.enabled))), Ok)
  }

  function Step(s: Service, r: Request): (Service, Response) {
    match r
    case MakeIt(num, make) => Make(s, num, make)
    case PatchOne(id, one) => PatchedOne(s, id, one)
    case RemoveIt(id) => Remove(s, id)
    case PatchAll(all) => PatchedAll(s, all)
  }

  function Run(s: Service, rs: seq<Request>): Service {
    if rs == [] then s else Step(Run(s, rs[..|rs| - 1]), rs[|rs| - 1]).0
  }

  // ----- What every run keeps -----

  predicate PoliciesKnown(rows: seq<Row<Subscription>>) {
    forall i :: 0 <= i < |rows| ==> IsPolicy(rows[i].data.policy)
  }

  predicate SettingsGood(t: Settings) {
    t.attempts >= 0 && t.interval >= 1
  }

  /** A create request whose retry policy is not one of the three is accepted all the same. */
  predicate BringsUnknownPolicy(r: Request) {
    r.MakeIt? && r.make.destination.Some? && r.make.protocol.Some? && r.make.policy.Some?
    && !IsPolicy(r.make.policy.value)
  }

  /** One request keeps the retry policies among the three known ones exactly when it is not such a create request. */
  lemma StepKeepsPolicies(s: Service, r: Request)
    requires PoliciesKnown(s.rows)
    ensures PoliciesKnown(Step(s, r).0.rows) <==> !BringsUnknownPolicy(r)
  {
    var t := Step(s, r).0.rows;
    if r.MakeIt? && t != s.rows {
      assert t[|s.rows|].data == NewSubscription(r.make);
      assert forall i :: 0 <= i < |s.rows| ==> t[i] == s.rows[i];
    }
  }

  /** Such a request, and what it leaves: a service with no subscription then has one with an unknown policy. */
  lemma UnknownPolicy(settings: Settings)
    ensures var r := MakeRequest(Some("http://listener"), Some("Redfish"), None, Some("Sometimes"), None);
      && BringsUnknownPolicy(MakeIt(1, r))
      && Step(Service([], settings), MakeIt(1, r)).1 == Created
      && !PoliciesKnown(Step(Service([], settings), MakeIt(1, r)).0.rows)
  {
    var r := MakeRequest(Some("http://listener"), Some("Redfish"), None, Some("Sometimes"), None);
    StepKeepsPolicies(Service([], settings), MakeIt(1, r));
  }

  lemma {:induction false} RunKeepsPolicies(s: Service, rs: seq<Request>)
    requires PoliciesKnown(s.rows)
    requires forall i :: 0 <= i < |rs| ==> !BringsUnknownPolicy(rs[i])
    ensures PoliciesKnown(Run(s, rs).rows)
  {
    if rs != [] {
      RunKeepsPolicies(s, rs[..|rs| - 1]);
      StepKeepsPolicies(Run(s, rs[..|rs| - 1]), rs[|rs| - 1]);
    }
  }

  /** The retry settings stay in range whatever is sent. */
  lemma {:induction false} RunKeepsSettings(s: Service, rs: seq<Request>)
    requires SettingsGood(s.settings)
    ensures SettingsGood(Run(s, rs).settings)
  {
    if rs != [] {
      RunKeepsSettings(s, rs[..|rs| - 1]);
    }
  }

  lemma FailureChangesNothing(s: Service, r: Request)
    requires Step(s, r).1 == BadRequest || Step(s, r).1 == Exception
    ensures Step(s, r).0 == s
  {}

  // ----- What a request asks for and what it gets -----

  /** A subscription is made exactly when destination and protocol are given; what else is not given gets its
      default. */
  lemma MadeAs(s: Service, num: nat, r: MakeRequest)
    ensures Make(s, num, r).1 == Created <==> r.destination.Some? && r.protocol.Some?
    ensures Make(s, num, r).1 == Created ==> var t := Make(s, num, r).0;
      && t.settings == s.settings && |t.rows| == |s.rows| + 1 && t.rows[..|s.rows|] == s.rows
      && t.rows[|s.rows|].num == num
      && var d := t.rows[|s.rows|].data;
         && Some(d.destination) == r.destination && Some(d.protocol) == r.protocol
         && d.context == (if r.context.Some? then r.context.value else "")
         && d.policy == (if r.policy.Some? then r.policy.value else "SuspendRetries")
         && d.kind == (if r.kind.Some? then r.kind.value else "RedfishEvent")
  {}

  /** One is changed exactly when it is there, a context or a policy is given, and the policy, where given, is one
      of the three; only those two change, and only of that one. */
  lemma PatchedAs(s: Service, id: string, r: PatchRequest, i: nat)
    requires i < |s.rows|
    ensures PatchedOne(s, id, r).1 == Ok
       <==> && (exists k :: 0 <= k < |s.rows| && Decimal.ToString(s.rows[k].num) == id)
            && (r.context.Some? || r.policy.Some?)
            && (r.policy.Some? ==> r.policy.value in {"RetryForever", "SuspendRetries", "TerminateAfterRetries"})
    ensures PatchedOne(s, id, r).1 == Ok ==> var t, a := PatchedOne(s, id, r).0, s.rows[i].data;
      && t.settings == s.settings && |t.rows| == |s.rows| && t.rows[i].num == s.rows[i].num
      && (i != FindRow(s.rows, id) ==> t.rows[i] == s.rows[i])
      && (i == FindRow(s.rows, id) ==>
           var b := t.rows[i].data;
           && b.destination == a.destination && b.protocol == a.protocol && b.kind == a.kind
           && b.context == (if r.context.Some? then r.context.value else a.context)
           && b.policy == (if r.policy.Some? then r.policy.value else a.policy))
  {}

  /** A deletion succeeds, enabled or not, exactly when the subscription is there and its number can be read back; then
      that one goes and the others stay. */
  lemma RemovedExactly(s: Service, id: string)
    ensures Remove(s, id).1 == Ok
       <==> exists i :: 0 <= i < |s.rows| && Named(s.rows, id, i) && s.rows[i].num <= 2147483647
    ensures Remove(s, id).1 == Exception
       <==> exists i :: 0 <= i < |s.rows| && Named(s.rows, id, i) && s.rows[i].num > 2147483647
    ensures Remove(s, id).1 in {Ok, Exception, BadRequest}
    ensures forall i :: 0 <= i < |s.rows| && Named(s.rows, id, i) && Remove(s, id).1 == Ok ==>
      Remove(s, id).0 == s.(rows := s.rows[..i] + s.rows[i + 1..])
  {
    forall i | 0 <= i < |s.rows| && Named(s.rows, id, i) ensures FindRow(s.rows, id) == i {
      FindRowIs(s.rows, id, i);
    }
    assert FindRow(s.rows, id) < |s.rows| ==> Named(s.rows, id, FindRow(s.rows, id));
  }

  /** The settings are changed exactly when something is given and nothing given is out of range. */
  lemma SettingsAs(s: Service, r: SettingsRequest)
    ensures PatchedAll(s, r).1 == Ok
       <==> && (r.attempts.Some? || r.interval.Some? || r.enabled.Some?)
            && (r.attempts.Some? ==> r.attempts.value >= 0) && (r.interval.Some? ==> r.interval.value >= 1)
    ensures PatchedAll(s, r).1 == Ok ==> var t := PatchedAll(s, r).0;
      && t.rows == s.rows
      && t.settings.attempts == (if r.attempts.Some? then r.attempts.value else s.settings.attempts)
      && t.settings.interval == (if r.interval.Some? then r.interval.value else s.settings.interval)
      && t.settings.enabled == (if r.enabled.Some? then r.enabled.value else s.settings.enabled)
  {}

  // ----- The service object -----

  class EventService {
    const subscriptions: Registry<Subscription>
    var attempts: int32
    var interval: int32
    var enabled: bool

    ghost function Abs(): Service
      reads this, subscriptions`rows
    {
      Service(subscriptions.rows, Settings(attempts, interval, enabled))
    }

    ghost predicate Valid()
      reads this, subscriptions, subscriptions.members, subscriptions.numbers
    {
      subscriptions.Valid() && subscriptions.base == BASE && SettingsGood(Abs().settings)
    }

    /** init_event_service: the service starts with one subscription. */
    constructor ()
      ensures Valid() && fresh(subscriptions) && fresh(subscriptions.numbers)
      ensures fresh(subscriptions.members)
      ensures subscriptions.rows == [Row(1, Subscription("", "Redfish", "", "RedfishEvent", SUSPEND))]
      ensures Abs().settings == Settings(3, 60, true)
    {
      subscriptions := new Registry(BASE, 1);
      attempts, interval, enabled := 3, 60, true;
      new;
      assert Available({}, 1, 1);
      var first := subscriptions.Create(Subscription("", "Redfish", "", "RedfishEvent", SUSPEND));
    }

    method MakeSubscription(r: MakeRequest) returns (o: Response)
      requires Valid() && CanAllocate(subscriptions.numbers.used, subscriptions.numbers.next)
      modifies subscriptions`members, subscriptions`record, subscriptions`rows, subscriptions.numbers
      ensures Valid()
      ensures (Abs(), o) == Make(old(Abs()), subscriptions.numbers.next, r)
      ensures forall m :: m in subscriptions.members ==> m in old(subscriptions.members) || fresh(m)
    {
      if r.destination.None? {
        return BadRequest;
      }
      if r.protocol.None? {
        return BadRequest;
      }
      var dest := subscriptions.Create(NewSubscription(r));
      return Created;
    }

    method RemoveSubscription(uri: string, ghost name: string) returns (o: Response)
      requires Valid() && uri == BASE + "/" + name && '/' !in name
      modifies subscriptions`members, subscriptions`record, subscriptions`rows, subscriptions.numbers`used
      ensures Valid()
      ensures (Abs(), o) == Remove(old(Abs()), name)
      ensures forall m :: m in subscriptions.members ==> m in old(subscriptions.members)
    {
      var r := subscriptions.Remove(uri, name);
      o := match r case Removed => Ok case NotFound => BadRequest case Thrown => Exception;
    }

    /** patch_subscription, after the check that the URI is on record. */
    method PatchSubscription(uri: string, ghost name: string, r: PatchRequest) returns (o: Response)
      requires Valid() && uri == BASE + "/" + name && '/' !in name
      modifies subscriptions.members, subscriptions`rows
      ensures Valid()
      ensures (Abs(), o) == PatchedOne(old(Abs()), name, r)
    {
      subscriptions.RecordAgrees(uri, name);
      if uri !in subscriptions.record {
        return BadRequest;
      }
      if r.policy.Some? && !IsPolicy(r.policy.value) {
        return BadRequest;
      }
      if r.context.None? && r.policy.None? {
        return BadRequest;
      }
      ghost var i := FindRow(subscriptions.rows, name);
      assert subscriptions.MemberAt(i);
      var dest := subscriptions.record[uri].data;
      if r.context.Some? {
        dest := dest.(context := r.context.value);
      }
      if r.policy.Some? {
        dest := dest.(policy := r.policy.value);
      }
      subscriptions.Assign(subscriptions.record[uri], i, dest);
      return Ok;
    }

    method PatchEventService(r: SettingsRequest) returns (o: Response)
      requires Valid()
      modifies this`attempts, this`interval, this`enabled
      ensures Valid()
      ensures (Abs(), o) == PatchedAll(old(Abs()), r)
    {
      var result := false;
      if r.attempts.Some? {
        if r.attempts.value < 0 {
          return BadRequest;
        }
        result := true;
      }
      if r.interval.Some? {
        if r.interval.value < 1 {
          return BadRequest;
        }
        result := true;
      }
      if r.enabled.Some? {
        result := true;
      }
      if !result {
        return BadRequest;
      }
      attempts := Or(r.attempts, attempts);
      interval := Or(r.interval, interval);
      enabled := Or(r.enabled, enabled);
      return Ok;
    }
  }
}

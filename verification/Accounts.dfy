/** User accounts: creation, modification, deletion and the service's own settings. */
module Accounts {
  import opened Json
  import opened Registry
  import opened NumberSet
  import Decimal

  const BASE := "/redfish/v1/AccountService/Accounts"
  const ADMINISTRATOR := "Administrator"

  datatype Account = Account(userName: string, password: string, enabled: bool, locked: bool, role: Option<string>)

  datatype Policy = Policy(minLength: nat, maxLength: nat, loggingThreshold: nat, lockoutThreshold: nat,
                           lockoutDuration: nat, resetAfter: nat, resetEnabled: bool)

  /** Everything these requests read or change; roles are the ids with an entry in g_record. */
  datatype Service = Service(rows: seq<Row<Account>>, enabled: bool, policy: Policy, roles: set<string>)

  datatype Response = Created | Ok | BadRequest | Conflict | Exception

  predicate Failed(r: Response) {
    r != Created && r != Ok
  }

  // ----- The requests, as functions on the service -----

  datatype MakeRequest = MakeRequest(userName: Option<string>, password: Option<string>, roleId: Option<string>,
                                     enabled: Option<bool>)

  predicate HasName(rows: seq<Row<Account>>, userName: string) {
    exists i :: 0 <= i < |rows| && rows[i].data.userName == userName
  }

  /** An account whose Role pointer stays null if no such role is on record. */
  function NewAccount(roles: set<string>, r: MakeRequest): Account
    requires r.userName.Some? && r.password.Some?
  {
    var roleId := Or(r.roleId, "ReadOnly");
    Account(r.userName.value, r.password.value, Or(r.enabled, true), false,
            if roleId in roles then Some(roleId) else None)
  }

  function MakeOutcome(s: Service, r: MakeRequest): Response {
    if !s.enabled || r.userName.None? || r.password.None? then BadRequest
    else if !(s.policy.minLength <= |r.password.value| <= s.policy.maxLength) then BadRequest
    else if HasName(s.rows, r.userName.value) then Conflict
    else if r.roleId.Some? && r.roleId.value !in s.roles then BadRequest
    else Created
  }

  function Make(s: Service, num: nat, r: MakeRequest): (Service, Response) {
    var o := MakeOutcome(s, r);
    (if o == Created then s.(rows := s.rows + [Row(num, NewAccount(s.roles, r))]) else s, o)
  }

  /** Who asks: nobody, a token without a live session, or an account with its role. */
  datatype Caller = Anonymous | Expired | LoggedIn(accountId: string, roleId: string)

  datatype ModifyRequest = ModifyRequest(roleId: Option<string>, userName: Option<string>, password: Option<string>)

  /** Some account other than the one with this id has the name. */
  predicate NameTaken(rows: seq<Row<Account>>, id: string, userName: string) {
    exists i :: 0 <= i < |rows| && Decimal.ToString(rows[i].num) != id && rows[i].data.userName == userName
  }

  predicate IsAdmin(c: Caller) {
    c.LoggedIn? && c.roleId == ADMINISTRATOR
  }

  predicate MayEdit(c: Caller, id: string) {
    c.LoggedIn? && (c.roleId == ADMINISTRATOR || c.accountId == id)
  }

  function ModifyOutcome(s: Service, id: string, c: Caller, r: ModifyRequest): Response {
    if !s.enabled || FindRow(s.rows, id) == |s.rows| || !c.LoggedIn? then BadRequest
    else if IsAdmin(c) && r.roleId.Some? && r.roleId.value !in s.roles then BadRequest
    else if MayEdit(c, id) && r.userName.Some? && NameTaken(s.rows, id, r.userName.value) then BadRequest
    else if MayEdit(c, id) && r.password.Some?
         && !(s.policy.minLength <= |r.password.value| <= s.policy.maxLength) then BadRequest
    else if !(IsAdmin(c) && r.roleId.Some?) && !(MayEdit(c, id) && (r.userName.Some? || r.password.Some?))
    then BadRequest
    else Ok
  }

  function Modified(a: Account, id: string, c: Caller, r: ModifyRequest): Account {
    a.(role := if IsAdmin(c) && r.roleId.Some? then r.roleId else a.role,
       userName := if MayEdit(c, id) then Or(r.userName, a.userName) else a.userName,
       password := if MayEdit(c, id) then Or(r.password, a.password) else a.password)
  }

  function Modify(s: Service, id: string, c: Caller, r: ModifyRequest): (Service, Response) {
    var o, i := ModifyOutcome(s, id, c, r), FindRow(s.rows, id);
    (if o == Ok then s.(rows := s.rows[i := s.rows[i].(data := Modified(s.rows[i].data, id, c, r))]) else s, o)
  }

  function Remove(s: Service, id: string): (Service, Response) {
    if !s.enabled then (s, BadRequest)
    else
      var (r, rows) := RemoveRow(s.rows, id);
      (s.(rows := rows), match r case Removed => Ok case NotFound => BadRequest case Thrown => Exception)
  }

  datatype PatchRequest = PatchRequest(minLength: Option<int32>, maxLength: Option<int32>, enabled: Option<bool>,
                                       loggingThreshold: Option<int32>, lockoutThreshold: Option<int32>,
                                       lockoutDuration: Option<int32>, resetAfter: Option<int32>,
                                       resetEnabled: Option<bool>)

  /** The limits a patch leads to, 0 standing for one that was not given; None if it must be refused. */
  function NewLimits(p: Policy, r: PatchRequest): Option<(nat, nat)> {
    var min, max := ReadUnsigned(r.minLength), ReadUnsigned(r.maxLength);
    if (r.minLength.Some? && min == 0) || (r.maxLength.Some? && max == 0) then None
    else
      var newMin, newMax := if min == 0 then p.minLength else min, if max == 0 then p.maxLength else max;
      if (min == 0 && max == 0) || newMin <= newMax then Some((newMin, newMax)) else None
  }

  function Unsigned(o: Option<int32>, current: nat): nat {
    if o.Some? then ToUnsigned(o.value) else current
  }

  const NOTHING := PatchRequest(None, None, None, None, None, None, None, None)

  /** The settings other than the limits. */
  function Updated(p: Policy, r: PatchRequest): Policy {
    Policy(p.minLength, p.maxLength,
           Unsigned(r.loggingThreshold, p.loggingThreshold), Unsigned(r.lockoutThreshold, p.lockoutThreshold),
           Unsigned(r.lockoutDuration, p.lockoutDuration), Unsigned(r.resetAfter, p.resetAfter),
           Or(r.resetEnabled, p.resetEnabled))
  }

  function Patch(s: Service, r: PatchRequest): (Service, Response) {
    var limits := NewLimits(s.policy, r);
    if limits.None? then (s, BadRequest)
    else
      (s.(enabled := Or(r.enabled, s.enabled),
          policy := Updated(s.policy, r).(minLength := limits.value.0, maxLength := limits.value.1)),
       if r == NOTHING then BadRequest else Ok)
  }

  // ----- What every run keeps -----

  predicate NamesUnique(rows: seq<Row<Account>>) {
    forall i, j :: 0 <= i < j < |rows| ==> rows[i].data.userName != rows[j].data.userName
  }

  predicate Good(s: Service) {
    DistinctNums(s.rows) && NamesUnique(s.rows) && 1 <= s.policy.minLength <= s.policy.maxLength
  }

  datatype Request = MakeIt(num: nat, make: MakeRequest) | ModifyIt(id: string, caller: Caller, change: ModifyRequest)
                   | RemoveIt(rid: string) | PatchIt(patch: PatchRequest)

  function Step(s: Service, r: Request): (Service, Response) {
    match r
    case MakeIt(num, make) => Make(s, num, make)
    case ModifyIt(id, caller, change) => Modify(s, id, caller, change)
    case RemoveIt(id) => Remove(s, id)
    case PatchIt(patch) => Patch(s, patch)
  }

  /** The number for a new account is one the allocator can give. */
  predicate Legal(s: Service, r: Request) {
    r.MakeIt? ==> forall i :: 0 <= i < |s.rows| ==> s.rows[i].num != r.num
  }

  function Run(s: Service, rs: seq<Request>): Service {
    if rs == [] then s else Step(Run(s, rs[..|rs| - 1]), rs[|rs| - 1]).0
  }

  predicate LegalRun(s: Service, rs: seq<Request>) {
    rs == [] || (LegalRun(s, rs[..|rs| - 1]) && Legal(Run(s, rs[..|rs| - 1]), rs[|rs| - 1]))
  }

  /** The duplicate scan skips every account with the edited id; that this is one account only is what ids being
      distinct is needed for. */
  lemma ModifyGood(s: Service, id: string, c: Caller, r: ModifyRequest)
    requires Good(s)
    ensures Good(Modify(s, id, c, r).0)
  {
    var s', i := Modify(s, id, c, r).0, FindRow(s.rows, id);
    if s' != s {
      forall j | 0 <= j < |s.rows| && j != i ensures s'.rows[j].data.userName != s'.rows[i].data.userName {
        if Decimal.ToString(s.rows[j].num) == id {
          Decimal.ToStringInjective(s.rows[j].num, s.rows[i].num);
        }
      }
    }
  }

  lemma MakeGood(s: Service, num: nat, r: MakeRequest)
    requires Good(s) && Legal(s, MakeIt(num, r))
    ensures Good(Make(s, num, r).0)
  {}

  lemma RemoveGood(s: Service, id: string)
    requires Good(s)
    ensures Good(Remove(s, id).0)
  {}

  lemma PatchGood(s: Service, r: PatchRequest)
    requires Good(s)
    ensures Good(Patch(s, r).0)
  {}

  lemma StepGood(s: Service, r: Request)
    requires Good(s) && Legal(s, r)
    ensures Good(Step(s, r).0)
  {
    match r
    case MakeIt(num, make) => MakeGood(s, num, make);
    case ModifyIt(id, caller, change) => ModifyGood(s, id, caller, change);
    case RemoveIt(id) => RemoveGood(s, id);
    case PatchIt(patch) => PatchGood(s, patch);
  }

  /** User names stay unique and the password limits in order, through any interleaving of requests. */
  lemma {:induction false} RunGood(s: Service, rs: seq<Request>)
    requires Good(s) && LegalRun(s, rs)
    ensures Good(Run(s, rs))
  {
    if rs != [] {
      RunGood(s, rs[..|rs| - 1]);
      StepGood(Run(s, rs[..|rs| - 1]), rs[|rs| - 1]);
    }
  }

  /** A request that is refused, or that throws, changes nothing. */
  lemma FailureChangesNothing(s: Service, r: Request)
    requires Failed(Step(s, r).1)
    ensures Step(s, r).0 == s
  {}

  predicate SameRow(s: Service, t: Service, n: nat) {
    forall i, j :: 0 <= i < |s.rows| && 0 <= j < |t.rows| && s.rows[i].num == n && t.rows[j].num == n ==>
      s.rows[i].data == t.rows[j].data
  }

  lemma ModifyKeepsOthers(s: Service, id: string, c: Caller, r: ModifyRequest, n: nat)
    requires Good(s) && (id != Decimal.ToString(n) || !MayEdit(c, id))
    ensures SameRow(s, Modify(s, id, c, r).0, n)
  {
    var i := FindRow(s.rows, id);
    if i < |s.rows| && id != Decimal.ToString(n) {
      assert s.rows[i].num != n;
    }
  }

  lemma RemoveKeepsOthers(s: Service, id: string, n: nat)
    requires Good(s)
    ensures SameRow(s, Remove(s, id).0, n)
  {
    if Remove(s, id).0 != s {
      RemovedRows(s.rows, FindRow(s.rows, id), n);
    }
  }

  lemma RemovedRows(rows: seq<Row<Account>>, i: nat, n: nat)
    requires DistinctNums(rows) && i < |rows|
    ensures var t := rows[..i] + rows[i + 1..];
      forall j, k :: 0 <= j < |rows| && 0 <= k < |t| && rows[j].num == n && t[k].num == n ==> rows[j] == t[k]
  {
    var t := rows[..i] + rows[i + 1..];
    assert forall k :: 0 <= k < |t| ==> t[k] == rows[if k < i then k else k + 1];
  }

  /** An account that is there before and after a request differs only if the request was a modification of that very
      account by its owner or an administrator. */
  lemma OnlyEditorsChange(s: Service, r: Request, n: nat)
    requires Good(s) && Legal(s, r)
    ensures SameRow(s, Step(s, r).0, n) || (r.ModifyIt? && r.id == Decimal.ToString(n) && MayEdit(r.caller, r.id))
  {
    match r
    case MakeIt(num, make) =>
    case ModifyIt(id, caller, change) =>
      if !(id == Decimal.ToString(n) && MayEdit(caller, id)) {
        ModifyKeepsOthers(s, id, caller, change, n);
      }
    case RemoveIt(id) => RemoveKeepsOthers(s, id, n);
    case PatchIt(patch) =>
  }

  // ----- What a request asks for and what it gets -----

  /** An account is made exactly when the service is enabled, name and password are given, the password's length is
      within the limits, nobody has the name, and the role, where one is given, is on record.  Only a taken name is a
      conflict. */
  lemma MadeExactly(s: Service, num: nat, r: MakeRequest)
    ensures Make(s, num, r).1 == Created
       <==> && s.enabled && r.userName.Some? && r.password.Some?
            && |r.password.value| >= s.policy.minLength && |r.password.value| <= s.policy.maxLength
            && (forall i :: 0 <= i < |s.rows| ==> s.rows[i].data.userName != r.userName.value)
            && (r.roleId.Some? ==> r.roleId.value in s.roles)
    ensures Make(s, num, r).1 == Conflict
       <==> && s.enabled && r.userName.Some? && r.password.Some?
            && |r.password.value| >= s.policy.minLength && |r.password.value| <= s.policy.maxLength
            && (exists i :: 0 <= i < |s.rows| && s.rows[i].data.userName == r.userName.value)
    ensures Make(s, num, r).1 in {Created, Conflict, BadRequest}
  {}

  /** The new account stands last, with what was sent; it is enabled and a reader where nothing else was asked for, and
      has no role at all if that one is not on record. */
  lemma MadeAs(s: Service, num: nat, r: MakeRequest)
    requires Make(s, num, r).1 == Created
    ensures var t := Make(s, num, r).0;
      && |t.rows| == |s.rows| + 1 && t.rows[..|s.rows|] == s.rows && t.rows[|s.rows|].num == num
      && (t.enabled, t.policy, t.roles) == (s.enabled, s.policy, s.roles)
      && var a := t.rows[|s.rows|].data;
         && Some(a.userName) == r.userName && Some(a.password) == r.password && !a.locked
         && (r.enabled.None? ==> a.enabled) && (r.enabled.Some? ==> a.enabled == r.enabled.value)
         && (r.roleId.Some? ==> a.role == r.roleId)
         && (r.roleId.None? ==> a.role == if "ReadOnly" in s.roles then Some("ReadOnly") else None)
  {}

  predicate SameRole(s: Service, t: Service, n: nat) {
    forall i, j :: 0 <= i < |s.rows| && 0 <= j < |t.rows| && s.rows[i].num == n && t.rows[j].num == n ==>
      s.rows[i].data.role == t.rows[j].data.role
  }

  /** Nobody but an administrator changes the role of an account, their own included. */
  lemma RolesByAdministrators(s: Service, r: Request, n: nat)
    requires Good(s) && Legal(s, r)
    requires r.ModifyIt? && r.caller.LoggedIn? ==> r.caller.roleId != "Administrator"
    ensures SameRole(s, Step(s, r).0, n)
  {
    OnlyEditorsChange(s, r, n);
    if r.ModifyIt? && Step(s, r).1 == Ok {
      var t, i := Step(s, r).0, FindRow(s.rows, r.id);
      assert t.rows[i].data.role == s.rows[i].data.role;
      assert forall j :: 0 <= j < |s.rows| ==> t.rows[j].num == s.rows[j].num;
    }
  }

  /** A modification succeeds exactly when everything in it that its caller may change is in order, and there is such a
      thing: a role for administrators, a name and a password for them and the owner. */
  lemma ModifiedExactly(s: Service, id: string, c: Caller, r: ModifyRequest)
    ensures Modify(s, id, c, r).1 == Ok
       <==> && s.enabled && c.LoggedIn?
            && (exists i :: 0 <= i < |s.rows| && Decimal.ToString(s.rows[i].num) == id)
            && (c.roleId == "Administrator" && r.roleId.Some? ==> r.roleId.value in s.roles)
            && (c.roleId == "Administrator" || c.accountId == id ==>
                 && (r.userName.Some? ==> forall i :: 0 <= i < |s.rows| && Decimal.ToString(s.rows[i].num) != id ==>
                       s.rows[i].data.userName != r.userName.value)
                 && (r.password.Some? ==>
                       |r.password.value| >= s.policy.minLength && |r.password.value| <= s.policy.maxLength))
            && (|| (c.roleId == "Administrator" && r.roleId.Some?)
                || ((c.roleId == "Administrator" || c.accountId == id) && (r.userName.Some? || r.password.Some?)))
    ensures Modify(s, id, c, r).1 in {Ok, BadRequest}
  {}

  /** After it the account has the role that was sent if an administrator sent one, the name and the password that were
      sent if an administrator or the owner did, and for the rest, like every other account, what it had. */
  lemma ModifiedAs(s: Service, id: string, c: Caller, r: ModifyRequest, i: nat)
    requires Modify(s, id, c, r).1 == Ok && i < |s.rows|
    ensures var t := Modify(s, id, c, r).0;
      && |t.rows| == |s.rows| && t.rows[i].num == s.rows[i].num
      && (t.enabled, t.policy, t.roles) == (s.enabled, s.policy, s.roles)
      && (i != FindRow(s.rows, id) ==> t.rows[i] == s.rows[i])
      && (i == FindRow(s.rows, id) ==>
           var a, b := s.rows[i].data, t.rows[i].data;
           && b.enabled == a.enabled && b.locked == a.locked
           && b.role == (if c.roleId == "Administrator" && r.roleId.Some? then r.roleId else a.role)
           && b.userName == (if (c.roleId == "Administrator" || c.accountId == id) && r.userName.Some?
                             then r.userName.value else a.userName)
           && b.password == (if (c.roleId == "Administrator" || c.accountId == id) && r.password.Some?
                             then r.password.value else a.password))
  {}

  /** A deletion succeeds exactly when the service is enabled, the account is there and its number can be read
      back; then that account goes and the others stay. */
  lemma RemovedExactly(s: Service, id: string)
    ensures Remove(s, id).1 == Ok
       <==> s.enabled && exists i :: 0 <= i < |s.rows| && Named(s.rows, id, i) && s.rows[i].num <= 2147483647
    ensures Remove(s, id).1 == Exception
       <==> s.enabled && exists i :: 0 <= i < |s.rows| && Named(s.rows, id, i) && s.rows[i].num > 2147483647
    ensures Remove(s, id).1 in {Ok, Exception, BadRequest}
    ensures forall i :: 0 <= i < |s.rows| && Named(s.rows, id, i) && Remove(s, id).1 == Ok ==>
      Remove(s, id).0 == s.(rows := s.rows[..i] + s.rows[i + 1..])
  {
    forall i | 0 <= i < |s.rows| && Named(s.rows, id, i) ensures FindRow(s.rows, id) == i {
      FindRowIs(s.rows, id, i);
    }
    assert FindRow(s.rows, id) < |s.rows| ==> Named(s.rows, id, FindRow(s.rows, id));
  }

  /** A patch is taken exactly when it gives something, no length it gives is 0, and the limits it leads to are in order
      unless it gives neither. */
  lemma PatchedExactly(s: Service, r: PatchRequest)
    ensures var min := if r.minLength.Some? then ToUnsigned(r.minLength.value) else s.policy.minLength;
      var max := if r.maxLength.Some? then ToUnsigned(r.maxLength.value) else s.policy.maxLength;
      Patch(s, r).1 == Ok
      <==> && r != PatchRequest(None, None, None, None, None, None, None, None)
           && (r.minLength.Some? ==> r.minLength.value != 0) && (r.maxLength.Some? ==> r.maxLength.value != 0)
           && (r.minLength.Some? || r.maxLength.Some? ==> min <= max)
  {}

  /** Every setting ends as given, or as it was. */
  lemma PatchedAs(s: Service, r: PatchRequest)
    requires Patch(s, r).1 == Ok
    ensures var t := Patch(s, r).0; var p, q := s.policy, t.policy;
      && t.rows == s.rows && t.roles == s.roles
      && t.enabled == (if r.enabled.Some? then r.enabled.value else s.enabled)
      && q.minLength == (if r.minLength.Some? then ToUnsigned(r.minLength.value) else p.minLength)
      && q.maxLength == (if r.maxLength.Some? then ToUnsigned(r.maxLength.value) else p.maxLength)
      && q.loggingThreshold
         == (if r.loggingThreshold.Some? then ToUnsigned(r.loggingThreshold.value) else p.loggingThreshold)
      && q.lockoutThreshold
         == (if r.lockoutThreshold.Some? then ToUnsigned(r.lockoutThreshold.value) else p.lockoutThreshold)
      && q.lockoutDuration
         == (if r.lockoutDuration.Some? then ToUnsigned(r.lockoutDuration.value) else p.lockoutDuration)
      && q.resetAfter == (if r.resetAfter.Some? then ToUnsigned(r.resetAfter.value) else p.resetAfter)
      && q.resetEnabled == (if r.resetEnabled.Some? then r.resetEnabled.value else p.resetEnabled)
  {}

  // ----- The service object -----

  class AccountService {
    const accounts: Registry<Account>
    var enabled: bool
    var policy: Policy
    var roles: set<string>

    ghost function Abs(): Service
      reads this, accounts`rows
    {
      Service(accounts.rows, enabled, policy, roles)
    }

    ghost predicate Valid()
      reads this, accounts, accounts.members, accounts.numbers
    {
      accounts.Valid() && accounts.base == BASE && Good(Abs())
    }

    constructor (policy: Policy, roles: set<string>)
      requires policy.minLength == 6 && policy.maxLength == 24
      ensures Valid() && Abs() == Service([], true, policy, roles)
      ensures fresh(accounts) && fresh(accounts.numbers) && accounts.numbers.next == 0
    {
      accounts := new Registry(BASE, 0);
      this.enabled, this.policy, this.roles := true, policy, roles;
    }

    /** The scan for an account other than one with the given id ("" being nobody's) that has this name. */
    method NameInUse(userName: string, id: string) returns (found: bool)
      requires Valid()
      ensures found <==> NameTaken(accounts.rows, id, userName)
    {
      var i := 0;
      while i < |accounts.members|
        invariant i <= |accounts.members|
        invariant forall k :: 0 <= k < i ==>
          Decimal.ToString(accounts.rows[k].num) == id || accounts.rows[k].data.userName != userName
      {
        assert accounts.MemberAt(i);
        if accounts.members[i].id != id && accounts.members[i].data.userName == userName {
          return true;
        }
        i := i + 1;
      }
      return false;
    }

    /** make_account, up to the point where it can no longer be refused. */
    method CheckNew(r: MakeRequest) returns (o: Response)
      requires Valid()
      ensures o == MakeOutcome(Abs(), r)
    {
      if !enabled || r.userName.None? || r.password.None? {
        return BadRequest;
      }
      if |r.password.value| < policy.minLength {
        return BadRequest;
      }
      if |r.password.value| > policy.maxLength {
        return BadRequest;
      }
      var found := NameInUse(r.userName.value, "");
      assert found <==> HasName(accounts.rows, r.userName.value);
      if found {
        return Conflict;
      }
      if r.roleId.Some? && r.roleId.value !in roles {
        return BadRequest;
      }
      return Created;
    }

    method MakeAccount(r: MakeRequest) returns (o: Response)
      requires Valid() && CanAllocate(accounts.numbers.used, accounts.numbers.next)
      modifies accounts`members, accounts`record, accounts`rows, accounts.numbers
      ensures Valid()
      ensures Legal(old(Abs()), MakeIt(accounts.numbers.next, r)) || o != Created
      ensures (Abs(), o) == Make(old(Abs()), accounts.numbers.next, r)
      ensures forall m :: m in accounts.members ==> m in old(accounts.members) || fresh(m)
    {
      o := CheckNew(r);
      if o == Created {
        ghost var before := Abs();
        var account := accounts.Create(NewAccount(roles, r));
        MakeGood(before, accounts.numbers.next, r);
      }
    }

    /** modify_account, up to the point where it can no longer be refused; i is the account's place. */
    method CheckChange(uri: string, ghost name: string, c: Caller, r: ModifyRequest) returns (o: Response, ghost i: nat)
      requires Valid() && uri == BASE + "/" + name && '/' !in name
      ensures o == ModifyOutcome(Abs(), name, c, r) && i == FindRow(accounts.rows, name)
    {
      accounts.RecordAgrees(uri, name);
      var id := ObjectName(uri);
      i := FindRow(accounts.rows, id);
      if !enabled || uri !in accounts.record || !c.LoggedIn? {
        return BadRequest, i;
      }
      if c.roleId == ADMINISTRATOR && r.roleId.Some? && r.roleId.value !in roles {
        return BadRequest, i;
      }
      if c.roleId == ADMINISTRATOR || c.accountId == id {
        if r.userName.Some? {
          var taken := NameInUse(r.userName.value, id);
          if taken {
            return BadRequest, i;
          }
        }
        if r.password.Some? && (|r.password.value| < policy.minLength || |r.password.value| > policy.maxLength) {
          return BadRequest, i;
        }
      }
      o := if !(IsAdmin(c) && r.roleId.Some?) && !(MayEdit(c, id) && (r.userName.Some? || r.password.Some?))
           then BadRequest else Ok;
    }

    /** The changes, applied together once nothing can fail any more. */
    method Change(account: Resource<Account>, ghost i: nat, id: string, c: Caller, r: ModifyRequest)
      requires accounts.Valid() && i < |accounts.members| && account == accounts.members[i]
      modifies account, accounts`rows
      ensures accounts.Valid()
      ensures accounts.rows
           == old(accounts.rows)[i := old(accounts.rows)[i].(data := Modified(old(accounts.rows)[i].data, id, c, r))]
    {
      var a := account.data;
      assert accounts.MemberAt(i);
      if IsAdmin(c) && r.roleId.Some? {
        a := a.(role := r.roleId);
      }
      if MayEdit(c, id) && r.userName.Some? {
        a := a.(userName := r.userName.value);
      }
      if MayEdit(c, id) && r.password.Some? {
        a := a.(password := r.password.value);
      }
      accounts.Assign(account, i, a);
    }

    method ModifyAccount(uri: string, ghost name: string, c: Caller, r: ModifyRequest) returns (o: Response)
      requires Valid() && uri == BASE + "/" + name && '/' !in name
      modifies accounts.members, accounts`rows
      ensures Valid()
      ensures (Abs(), o) == Modify(old(Abs()), name, c, r)
    {
      ModifyGood(Abs(), name, c, r);
      ghost var i: nat;
      o, i := CheckChange(uri, name, c, r);
      if o == Ok {
        accounts.RecordAgrees(uri, name);
        Change(accounts.record[uri], i, ObjectName(uri), c, r);
      }
    }

    method RemoveAccount(uri: string, ghost name: string) returns (o: Response)
      requires Valid() && uri == BASE + "/" + name && '/' !in name
      modifies accounts`members, accounts`record, accounts`rows, accounts.numbers`used
      ensures Valid()
      ensures (Abs(), o) == Remove(old(Abs()), name)
      ensures forall m :: m in accounts.members ==> m in old(accounts.members)
    {
      RemoveGood(Abs(), name);
      if !enabled {
        return BadRequest;
      }
      var r := accounts.Remove(uri, name);
      o := match r case Removed => Ok case NotFound => BadRequest case Thrown => Exception;
    }

    /** The password limits, the first part of patch_account_service; false if it must be refused. */
    method SetLimits(r: PatchRequest) returns (ok: bool)
      modifies this`policy
      ensures ok <==> NewLimits(old(policy), r).Some?
      ensures policy == if ok then old(policy).(minLength := NewLimits(old(policy), r).value.0,
                                                maxLength := NewLimits(old(policy), r).value.1) else old(policy)
    {
      var min, max := ReadUnsigned(r.minLength), ReadUnsigned(r.maxLength);
      if r.minLength.Some? && min == 0 {
        return false;
      }
      if r.maxLength.Some? && max == 0 {
        return false;
      }
      if min == 0 && max == 0 {
      } else if min == 0 {
        if policy.minLength > max {
          return false;
        }
        policy := policy.(maxLength := max);
      } else if max == 0 {
        if min > policy.maxLength {
          return false;
        }
        policy := policy.(minLength := min);
      } else {
        if min > max {
          return false;
        }
        policy := policy.(maxLength := max, minLength := min);
      }
      return true;
    }

    /** The lockout settings, each assigned if it is given; true if one is. */
    method SetLockout(r: PatchRequest) returns (any: bool)
      modifies this`policy
      ensures policy == Updated(old(policy), r.(loggingThreshold := None))
      ensures any <==> r.lockoutThreshold.Some? || r.lockoutDuration.Some? || r.resetAfter.Some? || r.resetEnabled.Some?
    {
      any := false;
      if r.lockoutThreshold.Some? {
        policy := policy.(lockoutThreshold := ToUnsigned(r.lockoutThreshold.value));
        any := true;
      }
      if r.lockoutDuration.Some? {
        policy := policy.(lockoutDuration := ToUnsigned(r.lockoutDuration.value));
        any := true;
      }
      if r.resetAfter.Some? {
        policy := policy.(resetAfter := ToUnsigned(r.resetAfter.value));
        any := true;
      }
      if r.resetEnabled.Some? {
        policy := policy.(resetEnabled := r.resetEnabled.value);
        any := true;
      }
    }

    /** All settings other than the limits. */
    method SetOthers(r: PatchRequest) returns (any: bool)
      modifies this`policy, this`enabled
      ensures enabled == Or(r.enabled, old(enabled))
      ensures policy == Updated(old(policy), r)
      ensures any <==> r.(minLength := None, maxLength := None) != NOTHING
    {
      any := false;
      if r.enabled.Some? {
        enabled := r.enabled.value;
        any := true;
      }
      if r.loggingThreshold.Some? {
        policy := policy.(loggingThreshold := ToUnsigned(r.loggingThreshold.value));
        any := true;
      }
      var lockout := SetLockout(r);
      any := any || lockout;
    }

    method PatchAccountService(r: PatchRequest) returns (o: Response)
      requires Valid()
      modifies this`policy, this`enabled
      ensures Valid()
      ensures (Abs(), o) == Patch(old(Abs()), r)
    {
      PatchGood(Abs(), r);
      var ok := SetLimits(r);
      if !ok {
        return BadRequest;
      }
      var any := SetOthers(r);
      o := if any || r.minLength.Some? || r.maxLength.Some? then Ok else BadRequest;
    }
  }
}

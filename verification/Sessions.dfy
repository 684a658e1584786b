/** Login sessions: creation, their one-second timers, expiry, logout, and changes of the session timeout. */
module Sessions {
  import opened Json
  import opened Registry
  import opened NumberSet
  import Accounts
  import Decimal

  const SESSIONS := "/redfish/v1/SessionService/Sessions"

  datatype Session = Session(token: string, account: Row<Accounts.Account>, remain: nat)

  datatype Login = Login(userName: Option<string>, password: Option<string>)

  datatype Sessions = Sessions(rows: seq<Row<Session>>, timeout: nat, enabled: bool)

  /** Tick is a turn of the timer of the session with that number. */
  datatype Event = LogIn(num: nat, token: string, login: Login, accounts: seq<Row<Accounts.Account>>)
                 | Tick(n: nat)
                 | LogOut(bearer: string)
                 | Patch(timeout: Option<int32>, enabled: Option<bool>)

  // ----- Lookups -----

  /** The first account with a name, or the number of accounts. */
  function FindUser(accounts: seq<Row<Accounts.Account>>, userName: string): (i: nat)
    ensures i <= |accounts|
    ensures i < |accounts| ==> accounts[i].data.userName == userName
    ensures forall k :: 0 <= k < i ==> accounts[k].data.userName != userName
  {
    if accounts == [] || accounts[0].data.userName == userName then 0 else 1 + FindUser(accounts[1..], userName)
  }

  lemma FindUserIs(accounts: seq<Row<Accounts.Account>>, userName: string, i: nat)
    requires i <= |accounts| && (i < |accounts| ==> accounts[i].data.userName == userName)
    requires forall k :: 0 <= k < i ==> accounts[k].data.userName != userName
    ensures FindUser(accounts, userName) == i
  {}

  /** The first session with a token, or the number of sessions. */
  function FindToken(rows: seq<Row<Session>>, token: string): (i: nat)
    ensures i <= |rows|
    ensures i < |rows| ==> rows[i].data.token == token
    ensures forall k :: 0 <= k < i ==> rows[k].data.token != token
  {
    if rows == [] || rows[0].data.token == token then 0 else 1 + FindToken(rows[1..], token)
  }

  lemma FindTokenIs(rows: seq<Row<Session>>, token: string, i: nat)
    requires i <= |rows| && (i < |rows| ==> rows[i].data.token == token)
    requires forall k :: 0 <= k < i ==> rows[k].data.token != token
    ensures FindToken(rows, token) == i
  {}

  /** is_session_valid */
  predicate TokenValid(rows: seq<Row<Session>>, token: string) {
    var i := FindToken(rows, token);
    i < |rows| && rows[i].data.remain > 0
  }

  // ----- The events, as functions on the service -----

  function LoginOutcome(enabled: bool, accounts: seq<Row<Accounts.Account>>, l: Login): Accounts.Response {
    if !enabled || l.userName.None? || l.password.None? then Accounts.BadRequest
    else
      var i := FindUser(accounts, l.userName.value);
      if i == |accounts| || accounts[i].data.password != l.password.value then Accounts.BadRequest else Accounts.Created
  }

  function AddSession(s: Sessions, e: Event): Sessions
    requires e.LogIn? && LoginOutcome(s.enabled, e.accounts, e.login) == Accounts.Created
  {
    var account := e.accounts[FindUser(e.accounts, e.login.userName.value)];
    s.(rows := s.rows + [Row(e.num, Session(e.token, account, s.timeout))])
  }

  /** The account at i is the first with the name given, and the password given is its own. */
  predicate Opens(accounts: seq<Row<Accounts.Account>>, l: Login, i: nat) {
    && i < |accounts| && l.userName.Some? && l.password.Some?
    && accounts[i].data.userName == l.userName.value && accounts[i].data.password == l.password.value
    && forall k :: 0 <= k < i ==> accounts[k].data.userName != l.userName.value
  }

  /** A login succeeds exactly when the service is enabled and the password given is that of the first account with the
      name given. */
  lemma LoginSucceeds(enabled: bool, accounts: seq<Row<Accounts.Account>>, l: Login)
    ensures LoginOutcome(enabled, accounts, l) == Accounts.Created
       <==> enabled && exists i :: 0 <= i < |accounts| && Opens(accounts, l, i)
    ensures LoginOutcome(enabled, accounts, l) in {Accounts.Created, Accounts.BadRequest}
  {
    if l.userName.Some? && l.password.Some? {
      var f := FindUser(accounts, l.userName.value);
      assert forall i :: 0 <= i < |accounts| && Opens(accounts, l, i) ==> i == f;
      assert f < |accounts| && accounts[f].data.password == l.password.value ==> Opens(accounts, l, f);
    }
  }

  /** What a login does to the service: one session more, with the whole timeout, or nothing. */
  lemma LoginOpens(s: Sessions, e: Event, i: nat)
    requires e.LogIn?
    ensures s.enabled && Opens(e.accounts, e.login, i) ==>
      Step(s, e) == Sessions(s.rows + [Row(e.num, Session(e.token, e.accounts[i], s.timeout))], s.timeout, s.enabled)
    ensures (!s.enabled || forall k :: 0 <= k < |e.accounts| ==> !Opens(e.accounts, e.login, k)) ==> Step(s, e) == s
  {
    LoginSucceeds(s.enabled, e.accounts, e.login);
    if Opens(e.accounts, e.login, i) {
      FindUserIs(e.accounts, e.login.userName.value, i);
    }
  }

  /** The session at i is the first with the token, and it has time left. */
  predicate Admits(rows: seq<Row<Session>>, token: string, i: nat) {
    && i < |rows| && rows[i].data.token == token && rows[i].data.remain > 0
    && forall k :: 0 <= k < i ==> rows[k].data.token != token
  }

  /** A token is valid exactly when its first session has time left. */
  lemma TokenAdmitted(rows: seq<Row<Session>>, token: string)
    ensures TokenValid(rows, token) <==> exists i :: 0 <= i < |rows| && Admits(rows, token, i)
  {
    assert forall i :: 0 <= i < |rows| && Admits(rows, token, i) ==> i == FindToken(rows, token);
    assert TokenValid(rows, token) ==> Admits(rows, token, FindToken(rows, token));
  }

  /** A logout succeeds exactly when the service is enabled and the token valid; then the time of that session is 0 and
      everything else is as it was.  Otherwise nothing changes. */
  lemma LogoutSucceeds(s: Sessions, token: string, i: nat)
    ensures LoggedOut(s, token).1 == Accounts.Ok
       <==> s.enabled && exists k :: 0 <= k < |s.rows| && Admits(s.rows, token, k)
    ensures LoggedOut(s, token).1 != Accounts.Ok ==> LoggedOut(s, token) == (s, Accounts.BadRequest)
    ensures s.enabled && Admits(s.rows, token, i) ==>
      LoggedOut(s, token).0 == s.(rows := s.rows[i := s.rows[i].(data := s.rows[i].data.(remain := 0))])
  {
    TokenAdmitted(s.rows, token);
    if Admits(s.rows, token, i) {
      FindTokenIs(s.rows, token, i);
    }
  }

  /** A changed timeout leaves each session the smaller of what it had and the new timeout, an absent one all it had;
      nothing else about a session changes. */
  lemma PatchedRows(s: Sessions, timeout: Option<int32>, enabled: Option<bool>, i: nat)
    requires i < |s.rows|
    ensures var t, r := Patched(s, timeout, enabled), s.rows[i];
      && |t.rows| == |s.rows| && t.rows[i].num == r.num
      && t.rows[i].data.token == r.data.token && t.rows[i].data.account == r.data.account
      && (timeout.None? ==> t.rows[i].data.remain == r.data.remain && t.timeout == s.timeout)
      && (timeout.Some? ==> t.timeout % 0x1_0000_0000 == timeout.value % 0x1_0000_0000 && t.timeout < 0x1_0000_0000)
      && (timeout.Some? ==> t.rows[i].data.remain == if r.data.remain < t.timeout then r.data.remain else t.timeout)
      && t.enabled == if enabled.Some? then enabled.value else s.enabled
  {}

  function SetRemain(rows: seq<Row<Session>>, i: nat, remain: nat): seq<Row<Session>>
    requires i < |rows|
  {
    rows[i := rows[i].(data := rows[i].data.(remain := remain))]
  }

  /** A turn of the timer counts down; with nothing left to count, the session is removed. */
  function Ticked(rows: seq<Row<Session>>, n: nat): seq<Row<Session>> {
    var i := FindRow(rows, Decimal.ToString(n));
    if i == |rows| then rows
    else if rows[i].data.remain > 0 then SetRemain(rows, i, rows[i].data.remain - 1)
    else RemoveRow(rows, Decimal.ToString(n)).1
  }

  function Clamp(d: Session, timeout: nat): Session {
    if d.remain > timeout then d.(remain := timeout) else d
  }

  function Clamped(rows: seq<Row<Session>>, timeout: nat): seq<Row<Session>> {
    seq(|rows|, i requires 0 <= i < |rows| => rows[i].(data := Clamp(rows[i].data, timeout)))
  }

  function LoggedOut(s: Sessions, token: string): (Sessions, Accounts.Response) {
    if s.enabled && TokenValid(s.rows, token)
    then (s.(rows := SetRemain(s.rows, FindToken(s.rows, token), 0)), Accounts.Ok)
    else (s, Accounts.BadRequest)
  }

  function Patched(s: Sessions, timeout: Option<int32>, enabled: Option<bool>): Sessions {
    var t := if timeout.Some? then ToUnsigned(timeout.value) else s.timeout;
    Sessions(if timeout.Some? then Clamped(s.rows, t) else s.rows, t, Or(enabled, s.enabled))
  }

  function Step(s: Sessions, e: Event): Sessions {
    match e
    case LogIn(_, _, login, accounts) =>
      if LoginOutcome(s.enabled, accounts, login) == Accounts.Created then AddSession(s, e) else s
    case Tick(n) => s.(rows := Ticked(s.rows, n))
    case LogOut(bearer) => LoggedOut(s, bearer).0
    case Patch(timeout, enabled) => Patched(s, timeout, enabled)
  }

  function Run(s: Sessions, es: seq<Event>): Sessions {
    if es == [] then s else Step(Run(s, es[..|es| - 1]), es[|es| - 1])
  }

  /** A login's number comes from the allocator, so no session has it. */
  predicate Legal(s: Sessions, e: Event) {
    e.LogIn? ==> forall i :: 0 <= i < |s.rows| ==> s.rows[i].num != e.num
  }

  predicate LegalRun(s: Sessions, es: seq<Event>) {
    es == [] || (LegalRun(s, es[..|es| - 1]) && Legal(Run(s, es[..|es| - 1]), es[|es| - 1]))
  }

  // ----- Remaining time against the timeout -----

  predicate Within(s: Sessions) {
    DistinctNums(s.rows) && forall i :: 0 <= i < |s.rows| ==> s.rows[i].data.remain <= s.timeout
  }

  lemma TickWithin(s: Sessions, n: nat)
    requires Within(s)
    ensures Within(s.(rows := Ticked(s.rows, n)))
  {
    var i := FindRow(s.rows, Decimal.ToString(n));
    if i < |s.rows| && s.rows[i].data.remain == 0 {
      RemoveKeepsDistinct(s.rows, Decimal.ToString(n));
    }
  }

  lemma RemoveKeepsDistinct<T>(rows: seq<Row<T>>, id: string)
    requires DistinctNums(rows)
    ensures DistinctNums(RemoveRow(rows, id).1)
  {}

  lemma StepWithin(s: Sessions, e: Event)
    requires Within(s) && Legal(s, e)
    ensures Within(Step(s, e))
  {
    match e
    case Tick(n) => TickWithin(s, n);
    case LogIn(_, _, _, _) =>
    case LogOut(_) =>
    case Patch(_, _) =>
  }

  /** No live session ever has more time left than the timeout now in force. */
  lemma {:induction false} RunWithin(s: Sessions, es: seq<Event>)
    requires Within(s) && LegalRun(s, es)
    ensures Within(Run(s, es))
  {
    if es != [] {
      RunWithin(s, es[..|es| - 1]);
      StepWithin(Run(s, es[..|es| - 1]), es[|es| - 1]);
    }
  }

  // ----- How long a session lives -----

  /** The time a session has left; a session that is gone has none. */
  function Remain(s: Sessions, n: nat): nat {
    var i := FindRow(s.rows, Decimal.ToString(n));
    if i == |s.rows| then 0 else s.rows[i].data.remain
  }

  function Minus(a: nat, b: nat): nat {
    if a < b then 0 else a - b
  }

  function Ticks(es: seq<Event>, n: nat): nat {
    if es == [] then 0 else Ticks(es[..|es| - 1], n) + if es[|es| - 1] == Tick(n) then 1 else 0
  }

  predicate Cuts(e: Event) {
    e.LogOut? || (e.Patch? && e.timeout.Some?)
  }

  predicate Reuses(e: Event, n: nat) {
    e.LogIn? && e.num == n
  }

  lemma RemainAt(s: Sessions, n: nat, i: nat)
    requires DistinctNums(s.rows) && i < |s.rows| && s.rows[i].num == n
    ensures Remain(s, n) == s.rows[i].data.remain
  {
    FindRowAt(s.rows, i);
  }

  predicate Absent(s: Sessions, n: nat) {
    forall i :: 0 <= i < |s.rows| ==> s.rows[i].num != n
  }

  lemma AbsentHasNone(s: Sessions, n: nat)
    requires Absent(s, n)
    ensures Remain(s, n) == 0
  {
    var i := FindRow(s.rows, Decimal.ToString(n));
    if i < |s.rows| {
      Decimal.ToStringInjective(s.rows[i].num, n);
    }
  }

  /** The same session in two states: the time left is what the rows say. */
  lemma RemainFollows(s: Sessions, t: Sessions, n: nat, i: nat, j: nat)
    requires DistinctNums(s.rows) && DistinctNums(t.rows) && i < |s.rows| && j < |t.rows|
    requires s.rows[i].num == n == t.rows[j].num
    ensures Remain(s, n) == s.rows[i].data.remain && Remain(t, n) == t.rows[j].data.remain
  {
    RemainAt(s, n, i);
    RemainAt(t, n, j);
  }

  lemma AbsentStays(s: Sessions, m: nat, n: nat)
    requires FindRow(s.rows, Decimal.ToString(n)) == |s.rows|
    ensures Remain(s.(rows := Ticked(s.rows, m)), n) == 0
  {
    AbsentHasNone(s.(rows := Ticked(s.rows, m)), n);
  }

  lemma CountedDown(s: Sessions, k: nat, i: nat)
    requires Within(s) && k < |s.rows| && i < |s.rows| && s.rows[k].data.remain > 0
    ensures Remain(s.(rows := SetRemain(s.rows, k, s.rows[k].data.remain - 1)), s.rows[i].num)
         == if i == k then s.rows[i].data.remain - 1 else s.rows[i].data.remain
  {
    var t := s.(rows := SetRemain(s.rows, k, s.rows[k].data.remain - 1));
    assert DistinctNums(t.rows);
    RemainAt(t, s.rows[i].num, i);
  }

  lemma Expired(s: Sessions, k: nat, i: nat)
    requires Within(s) && k < |s.rows| && i < |s.rows|
    ensures Remain(s.(rows := s.rows[..k] + s.rows[k + 1..]), s.rows[i].num)
         == if i == k then 0 else s.rows[i].data.remain
  {
    var n, t := s.rows[i].num, s.(rows := s.rows[..k] + s.rows[k + 1..]);
    assert forall j :: 0 <= j < |t.rows| ==> t.rows[j] == s.rows[if j < k then j else j + 1];
    if i == k {
      AbsentHasNone(t, n);
    } else {
      RemainAt(t, n, if i < k then i else i - 1);
    }
  }

  lemma FoundNum(rows: seq<Row<Session>>, n: nat)
    ensures var i := FindRow(rows, Decimal.ToString(n)); i < |rows| ==> rows[i].num == n
  {
    var i := FindRow(rows, Decimal.ToString(n));
    if i < |rows| {
      Decimal.ToStringInjective(rows[i].num, n);
    }
  }

  lemma TickRemainAt(s: Sessions, k: nat, i: nat, rows: seq<Row<Session>>)
    requires Within(s) && k < |s.rows| && i < |s.rows|
    requires rows == if s.rows[k].data.remain > 0 then SetRemain(s.rows, k, s.rows[k].data.remain - 1)
                     else if s.rows[k].num > Decimal.INT_MAX then s.rows else s.rows[..k] + s.rows[k + 1..]
    ensures Remain(s.(rows := rows), s.rows[i].num) == Minus(s.rows[i].data.remain, if i == k then 1 else 0)
  {
    if s.rows[k].data.remain > 0 {
      CountedDown(s, k, i);
    } else if s.rows[k].num > Decimal.INT_MAX {
      RemainAt(s, s.rows[i].num, i);
    } else {
      Expired(s, k, i);
    }
  }

  lemma TickRemain(s: Sessions, m: nat, n: nat)
    requires Within(s)
    ensures Remain(s.(rows := Ticked(s.rows, m)), n) == Minus(Remain(s, n), if m == n then 1 else 0)
  {
    var i, k := FindRow(s.rows, Decimal.ToString(n)), FindRow(s.rows, Decimal.ToString(m));
    FoundNum(s.rows, n);
    FoundNum(s.rows, m);
    if i == |s.rows| {
      AbsentStays(s, m, n);
    } else if k < |s.rows| {
      TickRemainAt(s, k, i, Ticked(s.rows, m));
    }
  }

  lemma OtherRemain(s: Sessions, e: Event, n: nat)
    requires Within(s) && Legal(s, e) && !e.Tick? && !Reuses(e, n)
    ensures Remain(Step(s, e), n) <= Remain(s, n)
    ensures !Cuts(e) ==> Remain(Step(s, e), n) == Remain(s, n)
  {
    var t := Step(s, e);
    StepWithin(s, e);
    var i := FindRow(s.rows, Decimal.ToString(n));
    if i == |s.rows| {
      AbsentHasNone(t, n) by {
        assert Absent(t, n);
      }
    } else {
      Decimal.ToStringInjective(s.rows[i].num, n);
      RemainFollows(s, t, n, i, i);
    }
  }

  /** Through any run a session loses a second for every turn of its timer and never gains any; as long as nobody logs
      out and the timeout is left alone, it loses no other. */
  lemma {:induction false} RunRemain(s: Sessions, es: seq<Event>, n: nat)
    requires Within(s) && LegalRun(s, es)
    requires forall k :: 0 <= k < |es| ==> !Reuses(es[k], n)
    ensures Remain(Run(s, es), n) <= Minus(Remain(s, n), Ticks(es, n))
    ensures (forall k :: 0 <= k < |es| ==> !Cuts(es[k])) ==> Remain(Run(s, es), n) == Minus(Remain(s, n), Ticks(es, n))
  {
    if es != [] {
      var init, e := es[..|es| - 1], es[|es| - 1];
      RunRemain(s, init, n);
      RunWithin(s, init);
      if e.Tick? {
        TickRemain(Run(s, init), e.n, n);
      } else {
        OtherRemain(Run(s, init), e, n);
      }
    }
  }

  /** A session has no time left once its timer has turned as often as the timeout in force at the start. */
  lemma SessionExpires(s: Sessions, es: seq<Event>, n: nat)
    requires Within(s) && LegalRun(s, es)
    requires forall k :: 0 <= k < |es| ==> !Reuses(es[k], n)
    requires Ticks(es, n) >= s.timeout
    ensures Remain(Run(s, es), n) == 0
  {
    RunRemain(s, es, n);
  }

  // ----- Logout -----

  predicate TokensDistinct(rows: seq<Row<Session>>) {
    forall i, j :: 0 <= i < j < |rows| ==> rows[i].data.token != rows[j].data.token
  }

  /** No session with this token has time left. */
  predicate Dead(s: Sessions, token: string) {
    forall i :: 0 <= i < |s.rows| && s.rows[i].data.token == token ==> s.rows[i].data.remain == 0
  }

  lemma StepStaysDead(s: Sessions, e: Event, token: string)
    requires Dead(s, token) && (e.LogIn? ==> e.token != token)
    ensures Dead(Step(s, e), token)
  {}

  /** A token none of whose sessions has time left never gets any back without a login that is given it. */
  lemma {:induction false} RunStaysDead(s: Sessions, es: seq<Event>, token: string)
    requires Dead(s, token) && NoLoginWith(es, token)
    ensures Dead(Run(s, es), token)
  {
    if es != [] {
      RunStaysDead(s, es[..|es| - 1], token);
      StepStaysDead(Run(s, es[..|es| - 1]), es[|es| - 1], token);
    }
  }

  /** Some session with the token has time left, and every one before it can be removed once its own time is up: a
      number that stoi cannot read back keeps a dead session in front of the others for ever. */
  predicate Revivable(rows: seq<Row<Session>>, token: string) {
    exists i :: 0 <= i < |rows| && RevivesAt(rows, token, i)
  }

  predicate RevivesAt(rows: seq<Row<Session>>, token: string, i: nat)
    requires i < |rows|
  {
    && rows[i].data.token == token && rows[i].data.remain > 0
    && forall k :: 0 <= k < i && rows[k].data.token == token ==> rows[k].num <= Decimal.INT_MAX
  }

  predicate NoLoginWith(es: seq<Event>, token: string) {
    forall k :: 0 <= k < |es| && es[k].LogIn? ==> es[k].token != token
  }

  /** Whatever happens, short of a login that is given the token, the token is refused. */
  ghost predicate StaysRefused(s: Sessions, token: string) {
    forall es :: NoLoginWith(es, token) ==> !TokenValid(Run(s, es).rows, token)
  }

  /** Row j of t is row i of s, with no more time left. */
  predicate Older(s: seq<Row<Session>>, t: seq<Row<Session>>, i: nat, j: nat)
    requires i < |s| && j < |t|
  {
    s[i].num == t[j].num && s[i].data.token == t[j].data.token && t[j].data.remain <= s[i].data.remain
  }

  /** Where nothing is removed or added in front, a session that can revive could before. */
  lemma SameRowsRevive(s: seq<Row<Session>>, t: seq<Row<Session>>, token: string)
    requires |s| <= |t| && forall i :: 0 <= i < |s| ==> Older(s, t, i, i)
    requires forall i :: |s| <= i < |t| ==> t[i].data.token != token
    ensures Revivable(t, token) ==> Revivable(s, token)
  {
    if Revivable(t, token) {
      var i :| 0 <= i < |t| && RevivesAt(t, token, i);
      assert Older(s, t, i, i);
      forall k | 0 <= k < i && s[k].data.token == token ensures s[k].num <= Decimal.INT_MAX {
        assert Older(s, t, k, k);
      }
      assert RevivesAt(s, token, i);
    }
  }

  lemma RemovalRevives(rows: seq<Row<Session>>, r: nat, token: string)
    requires r < |rows| && rows[r].num <= Decimal.INT_MAX
    ensures Revivable(rows[..r] + rows[r + 1..], token) ==> Revivable(rows, token)
  {
    var t := rows[..r] + rows[r + 1..];
    if Revivable(t, token) {
      var j :| 0 <= j < |t| && RevivesAt(t, token, j);
      var i := if j < r then j else j + 1;
      forall k | 0 <= k < i && rows[k].data.token == token ensures rows[k].num <= Decimal.INT_MAX {
        if k < r {
          assert t[k] == rows[k];
        } else if k > r {
          assert t[k - 1] == rows[k];
        }
      }
      assert RevivesAt(rows, token, i);
    }
  }

  lemma TickRevives(rows: seq<Row<Session>>, n: nat, token: string)
    ensures Revivable(Ticked(rows, n), token) ==> Revivable(rows, token)
  {
    var i := FindRow(rows, Decimal.ToString(n));
    if i < |rows| && rows[i].data.remain == 0 && rows[i].num <= Decimal.INT_MAX {
      RemovalRevives(rows, i, token);
    } else {
      SameRowsRevive(rows, Ticked(rows, n), token);
    }
  }

  lemma StepRevives(s: Sessions, e: Event, token: string)
    requires e.LogIn? ==> e.token != token
    ensures Revivable(Step(s, e).rows, token) ==> Revivable(s.rows, token)
  {
    if e.Tick? {
      TickRevives(s.rows, e.n, token);
    } else {
      SameRowsRevive(s.rows, Step(s, e).rows, token);
    }
  }

  lemma ValidIsRevivable(rows: seq<Row<Session>>, token: string)
    requires TokenValid(rows, token)
    ensures Revivable(rows, token)
  {
    assert RevivesAt(rows, token, FindToken(rows, token));
  }

  lemma {:induction false} RunRevives(s: Sessions, es: seq<Event>, token: string)
    requires NoLoginWith(es, token)
    ensures Revivable(Run(s, es).rows, token) ==> Revivable(s.rows, token)
  {
    if es != [] {
      RunRevives(s, es[..|es| - 1], token);
      StepRevives(Run(s, es[..|es| - 1]), es[|es| - 1], token);
    }
  }

  lemma RunLast(s: Sessions, es: seq<Event>, e: Event)
    ensures Run(s, es + [e]) == Step(Run(s, es), e)
  {
    assert (es + [e])[..|es|] == es;
  }

  lemma {:induction false} RunFirst(s: Sessions, e: Event, t: Sessions, es: seq<Event>)
    requires t == Step(s, e)
    ensures Run(s, [e] + es) == Run(t, es)
  {
    if es == [] {
      RunLast(s, [], e);
      assert [e] + es == [] + [e];
    } else {
      var init, last := es[..|es| - 1], es[|es| - 1];
      RunFirst(s, e, t, init);
      RunLast(s, [e] + init, last);
      RunLast(t, init, last);
      assert [e] + es == [e] + init + [last] && es == init + [last];
    }
  }

  lemma RevivesWithout(rows: seq<Row<Session>>, token: string, f: nat, i: nat)
    requires f < i < |rows| && RevivesAt(rows, token, i)
    ensures RevivesAt(rows[..f] + rows[f + 1..], token, i - 1)
  {
    var t := rows[..f] + rows[f + 1..];
    assert t[i - 1] == rows[i];
    assert forall k :: 0 <= k < i - 1 ==> t[k] == rows[if k < f then k else k + 1];
  }

  lemma TickRemoves(rows: seq<Row<Session>>, f: nat)
    requires DistinctNums(rows) && f < |rows| && rows[f].data.remain == 0 && rows[f].num <= Decimal.INT_MAX
    ensures Ticked(rows, rows[f].num) == rows[..f] + rows[f + 1..]
    ensures DistinctNums(rows[..f] + rows[f + 1..])
  {
    FindRowAt(rows, f);
    RemoveKeepsDistinct(rows, Decimal.ToString(rows[f].num));
  }

  /** The timer of a dead session in front of one that can revive removes it. */
  lemma RemovesFront(s: Sessions, token: string, f: nat, i: nat) returns (t: Sessions)
    requires DistinctNums(s.rows) && f < i < |s.rows| && RevivesAt(s.rows, token, i)
    requires s.rows[f].data.token == token && s.rows[f].data.remain == 0
    ensures t == Step(s, Tick(s.rows[f].num))
    ensures |t.rows| == |s.rows| - 1 && DistinctNums(t.rows) && RevivesAt(t.rows, token, i - 1)
  {
    TickRemoves(s.rows, f);
    RevivesWithout(s.rows, token, f, i);
    t := s.(rows := s.rows[..f] + s.rows[f + 1..]);
  }

  lemma Prepend(s: Sessions, e: Event, t: Sessions, es: seq<Event>, token: string)
    requires t == Step(s, e) && !e.LogIn? && NoLoginWith(es, token)
    ensures NoLoginWith([e] + es, token) && Run(s, [e] + es) == Run(t, es)
  {
    RunFirst(s, e, t, es);
  }

  /** The turns of their timers that remove the dead sessions in front of one with time left. */
  lemma {:induction false} Revive(s: Sessions, token: string, i: nat) returns (es: seq<Event>)
    requires DistinctNums(s.rows) && i < |s.rows| && RevivesAt(s.rows, token, i)
    ensures NoLoginWith(es, token) && TokenValid(Run(s, es).rows, token)
    decreases |s.rows|
  {
    var f := FindToken(s.rows, token);
    if s.rows[f].data.remain > 0 {
      es := [];
    } else {
      var t := RemovesFront(s, token, f, i);
      var rest := Revive(t, token, i - 1);
      es := [Tick(s.rows[f].num)] + rest;
      Prepend(s, Tick(s.rows[f].num), t, rest, token);
    }
  }

  /** A token stays refused exactly when no session can revive it. */
  lemma RefusedForGood(s: Sessions, token: string)
    requires DistinctNums(s.rows)
    ensures StaysRefused(s, token) <==> !Revivable(s.rows, token)
  {
    if Revivable(s.rows, token) {
      var i :| 0 <= i < |s.rows| && RevivesAt(s.rows, token, i);
      var es := Revive(s, token, i);
      assert NoLoginWith(es, token);
    } else {
      forall es | NoLoginWith(es, token) ensures !TokenValid(Run(s, es).rows, token) {
        RunRevives(s, es, token);
        if TokenValid(Run(s, es).rows, token) {
          ValidIsRevivable(Run(s, es).rows, token);
        }
      }
    }
  }

  /** Once the first session with the token is dead, it is the later ones that count. */
  lemma LaterRevives(rows: seq<Row<Session>>, token: string)
    requires FindToken(rows, token) < |rows|
    ensures Revivable(SetRemain(rows, FindToken(rows, token), 0), token)
       <==> exists i :: FindToken(rows, token) < i < |rows| && RevivesAt(rows, token, i)
  {
    var f, t := FindToken(rows, token), SetRemain(rows, FindToken(rows, token), 0);
    forall i | 0 <= i < |rows| ensures RevivesAt(t, token, i) <==> f < i && RevivesAt(rows, token, i) {
      assert forall k :: 0 <= k < |rows| ==> t[k].num == rows[k].num && t[k].data.token == rows[k].data.token;
    }
  }

  /** A logout holds for as long as no login is given the token exactly when, before it, no later session could revive
      the token.  That is so wherever tokens are distinct. */
  lemma LoggedOutForGood(s: Sessions, token: string)
    requires DistinctNums(s.rows) && LoggedOut(s, token).1 == Accounts.Ok
    ensures StaysRefused(LoggedOut(s, token).0, token)
       <==> !exists i :: FindToken(s.rows, token) < i < |s.rows| && RevivesAt(s.rows, token, i)
    ensures TokensDistinct(s.rows) ==> StaysRefused(LoggedOut(s, token).0, token)
  {
    var t := LoggedOut(s, token).0;
    assert DistinctNums(t.rows);
    RefusedForGood(t, token);
    LaterRevives(s.rows, token);
    assert TokensDistinct(s.rows) ==> Dead(t, token);
  }

  /** Two sessions of one token: after the logout the token is refused, and one turn of the dead session's timer later
      it is accepted again. */
  lemma SharedTokenRevives(account: Row<Accounts.Account>, token: string)
    ensures var s := Sessions([Row(1, Session(token, account, 9)), Row(2, Session(token, account, 9))], 9, true);
      var t := LoggedOut(s, token).0;
      LoggedOut(s, token).1 == Accounts.Ok && !TokenValid(t.rows, token) && TokenValid(Run(t, [Tick(1)]).rows, token)
  {
    var s := Sessions([Row(1, Session(token, account, 9)), Row(2, Session(token, account, 9))], 9, true);
    var t := LoggedOut(s, token).0;
    assert FindToken(s.rows, token) == 0;
    assert t.rows == [Row(1, Session(token, account, 0)), Row(2, Session(token, account, 9))];
    TickRemoves(t.rows, 0);
    assert t.rows[..0] + t.rows[1..] == [Row(2, Session(token, account, 9))];
    RunLast(t, [], Tick(1));
    assert [] + [Tick(1)] == [Tick(1)];
  }

  // ----- The service object -----

  class SessionService {
    const sessions: Registry<Session>
    var timeout: nat
    var enabled: bool

    ghost function Abs(): Sessions
      reads this, sessions`rows
    {
      Sessions(sessions.rows, timeout, enabled)
    }

    ghost predicate Valid()
      reads this, sessions, sessions.members, sessions.numbers
    {
      sessions.Valid() && sessions.base == SESSIONS && Within(Abs())
    }

    constructor ()
      ensures Valid() && Abs() == Sessions([], 86400, true)
      ensures fresh(sessions) && fresh(sessions.numbers) && sessions.numbers.next == 1
    {
      sessions := new Registry(SESSIONS, 1);
      timeout, enabled := 86400, true;
    }

    method FindSession(token: string) returns (i: nat)
      requires Valid()
      ensures i == FindToken(sessions.rows, token)
      ensures i < |sessions.rows| ==> sessions.members[i].data == sessions.rows[i].data
    {
      i := 0;
      while i < |sessions.members| && sessions.members[i].data.token != token
        invariant i <= |sessions.members|
        invariant forall k :: 0 <= k < i ==> sessions.rows[k].data.token != token
      {
        assert sessions.MemberAt(i);
        i := i + 1;
      }
      assert i < |sessions.members| ==> sessions.MemberAt(i);
      FindTokenIs(sessions.rows, token, i);
    }

    method IsSessionValid(token: string) returns (ok: bool)
      requires Valid()
      ensures ok <==> TokenValid(sessions.rows, token)
    {
      var i := FindSession(token);
      if i == |sessions.members| {
        return false;
      }
      assert sessions.MemberAt(i);
      if sessions.members[i].odataId !in sessions.record {
        return false;
      }
      return sessions.members[i].data.remain > 0;
    }

    /** make_session up to the new session: the account scan stops at the first one with the name. */
    method CheckLogin(l: Login, accounts: seq<Row<Accounts.Account>>) returns (o: Accounts.Response, i: nat)
      ensures o == LoginOutcome(enabled, accounts, l)
      ensures o == Accounts.Created ==> i == FindUser(accounts, l.userName.value) && Opens(accounts, l, i)
      ensures o == Accounts.Created <==> enabled && exists k :: 0 <= k < |accounts| && Opens(accounts, l, k)
    {
      LoginSucceeds(enabled, accounts, l);
      i := 0;
      if !enabled {
        return Accounts.BadRequest, i;
      }
      if l.userName.None? || l.password.None? {
        return Accounts.BadRequest, i;
      }
      while i < |accounts| && accounts[i].data.userName != l.userName.value
        invariant i <= |accounts|
        invariant forall k :: 0 <= k < i ==> accounts[k].data.userName != l.userName.value
      {
        i := i + 1;
      }
      FindUserIs(accounts, l.userName.value, i);
      if i == |accounts| {
        return Accounts.BadRequest, i;
      }
      if accounts[i].data.password != l.password.value {
        return Accounts.BadRequest, i;
      }
      return Accounts.Created, i;
    }

    /** make_session; the token is the one generate_token comes up with. */
    method MakeSession(l: Login, accounts: seq<Row<Accounts.Account>>, token: string) returns (o: Accounts.Response)
      requires Valid() && CanAllocate(sessions.numbers.used, sessions.numbers.next)
      modifies sessions`members, sessions`record, sessions`rows, sessions.numbers
      ensures Valid()
      ensures o == LoginOutcome(enabled, accounts, l)
      ensures Abs() == Step(old(Abs()), LogIn(sessions.numbers.next, token, l, accounts))
      ensures o == Accounts.Created <==> enabled && exists k :: 0 <= k < |accounts| && Opens(accounts, l, k)
      ensures o == Accounts.Created ==>
        (exists k :: 0 <= k < |accounts| && Opens(accounts, l, k)
          && sessions.rows == old(sessions.rows) + [Row(sessions.numbers.next, Session(token, accounts[k], timeout))])
      ensures o != Accounts.Created ==> o == Accounts.BadRequest && sessions.rows == old(sessions.rows)
      ensures forall m :: m in sessions.members ==> m in old(sessions.members) || fresh(m)
    {
      var i: nat;
      o, i := CheckLogin(l, accounts);
      if o == Accounts.Created {
        ghost var before := Abs();
        var session := sessions.Create(Session(token, accounts[i], timeout));
        StepWithin(before, LogIn(sessions.numbers.next, token, l, accounts));
      }
    }

    /** A turn of one session's timer, and what follows its last. */
    method TimerTurn(session: Resource<Session>, ghost i: nat)
      requires Valid() && i < |sessions.members| && sessions.members[i] == session
      modifies session, sessions`members, sessions`record, sessions`rows, sessions.numbers`used
      ensures Valid()
      ensures Abs() == Step(old(Abs()), Tick(old(sessions.rows)[i].num))
    {
      ghost var n := sessions.rows[i].num;
      TickWithin(Abs(), n);
      FindRowAt(sessions.rows, i);
      assert sessions.MemberAt(i);
      if session.data.remain > 0 {
        sessions.Assign(session, i, session.data.(remain := session.data.remain - 1));
      } else {
        var r := sessions.Remove(session.odataId, Decimal.ToString(n));
      }
    }

    method RemoveSession(token: string) returns (o: Accounts.Response)
      requires Valid()
      modifies sessions.members, sessions`rows
      ensures Valid()
      ensures (Abs(), o) == LoggedOut(old(Abs()), token)
    {
      var valid := IsSessionValid(token);
      if !enabled || !valid {
        return Accounts.BadRequest;
      }
      var i := FindSession(token);
      var session := sessions.members[i];
      sessions.Assign(session, i, session.data.(remain := 0));
      return Accounts.Ok;
    }

    /** The loop that lowers what every session has left to the new timeout. */
    method ClampAll(change: nat)
      requires sessions.Valid()
      modifies sessions.members, sessions`rows
      ensures sessions.Valid() && sessions.rows == Clamped(old(sessions.rows), change)
    {
      ghost var was := sessions.rows;
      for i := 0 to |sessions.members|
        invariant sessions.Valid() && sessions.members == old(sessions.members) && |sessions.rows| == |was|
        invariant forall k :: 0 <= k < i ==> sessions.rows[k] == Clamped(was, change)[k]
        invariant forall k :: i <= k < |was| ==> sessions.rows[k] == was[k]
      {
        var session := sessions.members[i];
        assert sessions.MemberAt(i);
        if session.data.remain > change {
          sessions.Assign(session, i, session.data.(remain := change));
        }
      }
    }

    method PatchSessionService(change: Option<int32>, on: Option<bool>) returns (result: bool)
      requires Valid()
      modifies this`timeout, this`enabled, sessions.members, sessions`rows
      ensures Valid()
      ensures Abs() == Step(old(Abs()), Patch(change, on))
      ensures !result ==> Abs() == old(Abs())
      ensures result <==> change.Some? || on.Some?
    {
      ghost var before := Abs();
      result := false;
      if change.Some? {
        timeout := ToUnsigned(change.value);
        result := true;
        ClampAll(timeout);
      }
      if on.Some? {
        enabled := on.value;
        result := true;
      }
      assert Abs() == Patched(before, change, on);
      StepWithin(before, Patch(change, on));
    }
  }
}

/** Two lists that requests only ever add to: a role's privileges and the NTP servers.  One loop looks for duplicates
    in the list as it was, the other in the list as it grows. */
module Roles {
  import opened Json
  import opened Accounts

  predicate IsPrivilege(p: string) {
    p == "ConfigureComponents" || p == "ConfigureManager" || p == "ConfigureSelf" || p == "ConfigureUsers"
    || p == "Login" || p == "NoAuth"
  }

  predicate AllPrivileges(s: seq<string>) {
    forall i {:trigger IsPrivilege(s[i])} :: 0 <= i < |s| ==> IsPrivilege(s[i])
  }

  predicate NoRepeats(s: seq<string>) {
    forall i, j :: 0 <= i < j < |s| ==> s[i] != s[j]
  }

  /** What was asked for and is not in the list, in the order asked, repeats included. */
  function Missing(list: seq<string>, asked: seq<string>): seq<string> {
    if asked == [] then []
    else
      var m, last := Missing(list, asked[..|asked| - 1]), asked[|asked| - 1];
      if last in list then m else m + [last]
  }

  lemma MissingNext(list: seq<string>, asked: seq<string>, i: nat)
    requires i < |asked|
    ensures Missing(list, asked[..i + 1])
         == if asked[i] in list then Missing(list, asked[..i]) else Missing(list, asked[..i]) + [asked[i]]
  {
    assert asked[..i + 1][..i] == asked[..i];
  }

  /** The list with each value asked for put last unless it is there by then. */
  function Merge(list: seq<string>, asked: seq<string>): seq<string> {
    if asked == [] then list
    else
      var m, last := Merge(list, asked[..|asked| - 1]), asked[|asked| - 1];
      if last in m then m else m + [last]
  }

  /** Every value asked for more than once is already in the list. */
  predicate NewOnlyOnce(list: seq<string>, asked: seq<string>) {
    forall i, j :: 0 <= i < j < |asked| && asked[i] == asked[j] ==> asked[i] in list
  }

  lemma {:induction false} MissingContents(list: seq<string>, asked: seq<string>, v: string)
    ensures v in Missing(list, asked) <==> v in asked && v !in list
  {
    if asked != [] {
      var init, last := asked[..|asked| - 1], asked[|asked| - 1];
      MissingContents(list, init, v);
      assert asked == init + [last];
    }
  }

  lemma {:induction false} MissingNoRepeats(list: seq<string>, asked: seq<string>)
    ensures NoRepeats(Missing(list, asked)) <==> NewOnlyOnce(list, asked)
  {
    if asked != [] {
      var init, last := asked[..|asked| - 1], asked[|asked| - 1];
      var m := Missing(list, init);
      MissingNoRepeats(list, init);
      MissingContents(list, init, last);
      assert asked == init + [last];
      if last in list {
        assert NewOnlyOnce(list, asked) <==> NewOnlyOnce(list, init);
      } else {
        RepeatsOfAppended(m, last);
        OnlyOnceAppended(list, init, last);
      }
    }
  }

  lemma RepeatsOfAppended(m: seq<string>, v: string)
    ensures NoRepeats(m + [v]) <==> NoRepeats(m) && v !in m
  {
    var s := m + [v];
    assert forall i :: 0 <= i < |m| ==> s[i] == m[i];
    assert s[|m|] == v;
  }

  lemma OnlyOnceAppended(list: seq<string>, init: seq<string>, last: string)
    requires last !in list
    ensures NewOnlyOnce(list, init + [last]) <==> NewOnlyOnce(list, init) && last !in init
  {
    var s := init + [last];
    assert forall i :: 0 <= i < |init| ==> s[i] == init[i];
    assert s[|init|] == last;
  }

  /** A role has no privilege twice after the request exactly when it had none before and the request repeats only
      privileges the role already has. */
  lemma RoleWithoutRepeats(list: seq<string>, asked: seq<string>)
    ensures NoRepeats(list + Missing(list, asked)) <==> NoRepeats(list) && NewOnlyOnce(list, asked)
  {
    var m := Missing(list, asked);
    var all := list + m;
    MissingNoRepeats(list, asked);
    forall i, j | 0 <= i < |list| && 0 <= j < |m| ensures list[i] != m[j] {
      MissingContents(list, asked, m[j]);
    }
    assert forall i :: 0 <= i < |list| ==> all[i] == list[i];
    assert forall i :: 0 <= i < |m| ==> all[|list| + i] == m[i];
    if NoRepeats(all) {
      forall i, j | 0 <= i < j < |m| ensures m[i] != m[j] {
        assert all[|list| + i] != all[|list| + j];
      }
    }
  }

  /** One request naming a new privilege twice is enough to store it twice. */
  lemma RepeatedPrivilege()
    ensures ["Login"] + Missing(["Login"], ["NoAuth", "NoAuth"]) == ["Login", "NoAuth", "NoAuth"]
  {
    assert ["NoAuth", "NoAuth"][..1] == ["NoAuth"];
    assert Missing(["Login"], ["NoAuth"]) == ["NoAuth"] by {
      assert ["NoAuth"][..0] == [];
    }
  }

  /** The server list keeps its front, holds just what it held and what was asked for, and never gains a repeat. */
  lemma {:induction false} MergeKeeps(list: seq<string>, asked: seq<string>)
    ensures list <= Merge(list, asked)
    ensures NoRepeats(list) ==> NoRepeats(Merge(list, asked))
    ensures forall v :: v in Merge(list, asked) <==> v in list || v in asked
  {
    if asked != [] {
      var init, last := asked[..|asked| - 1], asked[|asked| - 1];
      MergeKeeps(list, init);
      assert asked == init + [last];
      RepeatsOfAppended(Merge(list, init), last);
    }
  }

  /** The two loops store the same list exactly when the request repeats nothing new. */
  lemma {:induction false} LoopsAgree(list: seq<string>, asked: seq<string>)
    ensures Merge(list, asked) == list + Missing(list, asked) <==> NewOnlyOnce(list, asked)
  {
    LoopsDiffer(list, asked);
    if NewOnlyOnce(list, asked) && asked != [] {
      var init, last := asked[..|asked| - 1], asked[|asked| - 1];
      assert asked == init + [last];
      assert NewOnlyOnce(list, init);
      LoopsAgree(list, init);
      MergeKeeps(list, init);
      assert last in init ==> last in list;
      assert list + (Missing(list, init) + [last]) == list + Missing(list, init) + [last];
    }
  }

  /** The server loop never stores more, and stores less when something new is repeated. */
  lemma {:induction false} LoopsDiffer(list: seq<string>, asked: seq<string>)
    ensures |Merge(list, asked)| <= |list| + |Missing(list, asked)|
    ensures !NewOnlyOnce(list, asked) ==> |Merge(list, asked)| < |list| + |Missing(list, asked)|
  {
    if asked != [] {
      var init, last := asked[..|asked| - 1], asked[|asked| - 1];
      assert asked == init + [last];
      LoopsDiffer(list, init);
      MergeKeeps(list, init);
      if last !in list {
        OnlyOnceAppended(list, init, last);
      } else {
        assert NewOnlyOnce(list, asked) <==> NewOnlyOnce(list, init);
      }
    }
  }

  /** Sending a request a second time adds nothing more. */
  lemma {:induction false} AskedAgain(list: seq<string>, asked: seq<string>, rest: seq<string>)
    requires forall i :: 0 <= i < |rest| ==> rest[i] in asked
    ensures Missing(list + Missing(list, asked), rest) == []
  {
    if rest != [] {
      var last := rest[|rest| - 1];
      AskedAgain(list, asked, rest[..|rest| - 1]);
      MissingContents(list, asked, last);
    }
  }

  // ----- The requests -----

  class Role {
    var privileges: seq<string>

    constructor (privileges: seq<string>)
      ensures this.privileges == privileges
    {
      this.privileges := privileges;
    }

    /** The loop over store. */
    method Append(store: seq<string>)
      modifies this
      ensures privileges == old(privileges) + store
    {
      for i := 0 to |store|
        invariant privileges == old(privileges) + store[..i]
      {
        privileges := privileges + [store[i]];
        assert old(privileges) + store[..i] + [store[i]] == old(privileges) + store[..i + 1];
      }
      assert store[..|store|] == store;
    }
  }

  /** A privilege that is none is refused when the loop reaches it, an element that is no text throws; either way the
      loop has stored nothing yet. */
  function RoleOutcome(enabled: bool, onRecord: bool, c: Caller, asked: Option<seq<Element>>): Response {
    if !enabled || !onRecord || !IsAdmin(c) || asked.None? then BadRequest
    else if !AllPrivileges(Leading(asked.value)) then BadRequest
    else if FirstNotText(asked.value) < |asked.value| then Exception
    else Ok
  }

  /** The list modify_role leads to. */
  function Extended(enabled: bool, onRecord: bool, list: seq<string>, c: Caller, asked: Option<seq<Element>>)
    : seq<string>
  {
    if RoleOutcome(enabled, onRecord, c, asked) == Ok then list + Missing(list, Leading(asked.value)) else list
  }

  /** A role is changed exactly when the service is enabled, the role on record, the caller an administrator, and the
      request a list of nothing but the six privileges. */
  lemma RoleChanged(enabled: bool, onRecord: bool, c: Caller, asked: Option<seq<Element>>)
    ensures RoleOutcome(enabled, onRecord, c, asked) == Ok
       <==> && enabled && onRecord && c.LoggedIn? && c.roleId == "Administrator" && asked.Some?
            && forall k :: 0 <= k < |asked.value| ==>
                 && asked.value[k].Text?
                 && asked.value[k].text in {"ConfigureComponents", "ConfigureManager", "ConfigureSelf",
                                            "ConfigureUsers", "Login", "NoAuth"}
  {
    if asked.Some? {
      var ts, es := Leading(asked.value), asked.value;
      assert forall k :: 0 <= k < |ts| ==> es[k] == Text(ts[k]);
      SixPrivileges(ts);
    }
  }

  lemma SixPrivileges(ts: seq<string>)
    ensures AllPrivileges(ts)
       <==> forall k :: 0 <= k < |ts| ==>
              ts[k] in {"ConfigureComponents", "ConfigureManager", "ConfigureSelf", "ConfigureUsers", "Login", "NoAuth"}
  {
    assert forall k :: 0 <= k < |ts| ==> (IsPrivilege(ts[k]) <==>
      ts[k] in {"ConfigureComponents", "ConfigureManager", "ConfigureSelf", "ConfigureUsers", "Login", "NoAuth"});
  }

  /** A role holds privileges only, whatever is asked, and what it had stays in front. */
  lemma ExtendedIsSafe(e: bool, x: bool, list: seq<string>, c: Caller, asked: Option<seq<Element>>)
    requires AllPrivileges(list)
    ensures list <= Extended(e, x, list, c, asked) && AllPrivileges(Extended(e, x, list, c, asked))
  {
    if RoleOutcome(e, x, c, asked) == Ok {
      var m := Missing(list, Leading(asked.value));
      forall i | 0 <= i < |m| ensures IsPrivilege(m[i]) {
        MissingContents(list, Leading(asked.value), m[i]);
      }
    }
  }

  const ROLES := "/redfish/v1/AccountService/Roles"
  const ADMINISTRATOR_PRIVILEGES :=
    ["Login", "ConfigureManager", "ConfigureUsers", "ConfigureSelf", "ConfigureComponents"]
  const OPERATOR_PRIVILEGES := ["Login", "ConfigureSelf", "ConfigureComponents"]
  const READ_ONLY_PRIVILEGES := ["Login", "ConfigureSelf"]

  lemma PredefinedPrivileges()
    ensures AllPrivileges(ADMINISTRATOR_PRIVILEGES) && AllPrivileges(OPERATOR_PRIVILEGES)
    ensures AllPrivileges(READ_ONLY_PRIVILEGES)
  {}

  lemma RoleUrisDiffer()
    ensures ROLES + "/Administrator" != ROLES + "/Operator"
    ensures ROLES + "/Administrator" != ROLES + "/ReadOnly"
    ensures ROLES + "/Operator" != ROLES + "/ReadOnly"
  {
    var n := |ROLES| + 1;
    assert (ROLES + "/Administrator")[n] == 'A' && (ROLES + "/Operator")[n] == 'O' && (ROLES + "/ReadOnly")[n] == 'R';
  }

  /** The entries of g_record below the roles' URI; every one has an object of its own. */
  class RoleCollection {
    var enabled: bool   // the account service's own switch
    var record: map<string, Role>

    ghost predicate Valid()
      reads this, record.Values
    {
      && (forall u, v :: u in record && v in record && u != v ==> record[u] != record[v])
      && (forall u :: u in record ==> AllPrivileges(record[u].privileges))
    }

    /** init_account_service: the three predefined roles. */
    constructor ()
      ensures Valid() && enabled && fresh(record.Values)
      ensures record.Keys == {ROLES + "/Administrator", ROLES + "/Operator", ROLES + "/ReadOnly"}
      ensures PrivilegesAt(ROLES + "/Administrator") == ADMINISTRATOR_PRIVILEGES
      ensures PrivilegesAt(ROLES + "/Operator") == OPERATOR_PRIVILEGES
      ensures PrivilegesAt(ROLES + "/ReadOnly") == READ_ONLY_PRIVILEGES
    {
      var administrator := new Role(ADMINISTRATOR_PRIVILEGES);
      var operator := new Role(OPERATOR_PRIVILEGES);
      var readOnly := new Role(READ_ONLY_PRIVILEGES);
      RoleUrisDiffer();
      PredefinedPrivileges();
      enabled := true;
      record := map[ROLES + "/Administrator" := administrator, ROLES + "/Operator" := operator,
                    ROLES + "/ReadOnly" := readOnly];
    }

    ghost function PrivilegesAt(uri: string): seq<string>
      reads this, record.Values
    {
      if uri in record then record[uri].privileges else []
    }

    /** The scan of a role's list for one privilege. */
    method Lacks(role: Role, input: string) returns (lacks: bool)
      ensures lacks <==> input !in role.privileges
    {
      var j := 0;
      while j < |role.privileges|
        invariant j <= |role.privileges| && input !in role.privileges[..j]
      {
        if role.privileges[j] == input {
          return false;
        }
        j := j + 1;
      }
      assert role.privileges[..j] == role.privileges;
      return true;
    }

    /** The loop that checks every privilege asked for and keeps those the role lacks. */
    method Collect(role: Role, asked: seq<Element>) returns (o: Response, store: seq<string>)
      ensures o == if !AllPrivileges(Leading(asked)) then BadRequest
                   else if FirstNotText(asked) < |asked| then Exception else Ok
      ensures o == Ok ==> store == Missing(role.privileges, Leading(asked))
    {
      ghost var ts := Leading(asked);
      store := [];
      var i := 0;
      while i < |asked|
        invariant i <= |ts| && forall k {:trigger IsPrivilege(ts[k])} :: 0 <= k < i ==> IsPrivilege(ts[k])
        invariant store == Missing(role.privileges, ts[..i])
      {
        if asked[i].NotText? {
          assert ts[..i] == ts;
          return Exception, [];
        }
        var input := asked[i].text;
        if !IsPrivilege(input) {
          return BadRequest, [];
        }
        var lacks := Lacks(role, input);
        MissingNext(role.privileges, ts, i);
        if lacks {
          store := store + [input];
        }
        i := i + 1;
      }
      assert ts[..i] == ts;
      return Ok, store;
    }

    /** modify_role */
    method ModifyRole(uri: string, c: Caller, asked: Option<seq<Element>>) returns (o: Response)
      requires Valid()
      modifies record.Values
      ensures Valid()
      ensures o == RoleOutcome(enabled, uri in record, c, asked)
      ensures PrivilegesAt(uri) == Extended(enabled, uri in record, old(PrivilegesAt(uri)), c, asked)
      ensures forall u :: u in record && u != uri ==> PrivilegesAt(u) == old(PrivilegesAt(u))
    {
      if !enabled || uri !in record || !IsAdmin(c) || asked.None? {
        return BadRequest;
      }
      var role := record[uri];
      ghost var was := role.privileges;
      ExtendedIsSafe(enabled, true, was, c, asked);
      var store: seq<string>;
      o, store := Collect(role, asked.value);
      if o == Ok {
        role.Append(store);
      }
    }
  }

  /** The settings the NTP part of patch_network_protocol writes, and what it does to them: an element that is no text
      throws when the loop reaches it, and what came before it has been stored by then. */
  datatype Ntp = Ntp(enabled: bool, port: int32, servers: seq<string>)

  datatype NtpRequest = NtpRequest(enabled: Option<bool>, port: Option<int32>, servers: Option<seq<Element>>)

  function NtpAfter(n: Ntp, r: NtpRequest): Ntp {
    Ntp(Or(r.enabled, n.enabled), Or(r.port, n.port), Merge(n.servers, Leading(Or(r.servers, []))))
  }

  function NtpOutcome(r: NtpRequest): Response {
    var asked := Or(r.servers, []);
    if FirstNotText(asked) < |asked| then Exception
    else if r.enabled.Some? || r.port.Some? || asked != [] then Ok else BadRequest
  }

  /** A request changes nothing, thrown or not, exactly when both plain settings are absent or as before and the list
      has every server that the loop gets to. */
  lemma NtpUnchanged(n: Ntp, r: NtpRequest)
    ensures NtpAfter(n, r) == n
       <==> && r.enabled in {None, Some(n.enabled)} && r.port in {None, Some(n.port)}
            && forall v :: v in Leading(Or(r.servers, [])) ==> v in n.servers
    ensures NtpOutcome(r) == BadRequest ==> NtpAfter(n, r) == n
  {
    NothingMerged(n.servers, Leading(Or(r.servers, [])));
  }

  /** The plain settings end as given, or as they were. */
  lemma NtpSettings(n: Ntp, r: NtpRequest)
    ensures NtpAfter(n, r).enabled == if r.enabled.Some? then r.enabled.value else n.enabled
    ensures NtpAfter(n, r).port == if r.port.Some? then r.port.value else n.port
  {}

  /** A request that throws and has changed every setting. */
  lemma ThrownHalfway()
    ensures
      var n, r := Ntp(false, 123, []), NtpRequest(Some(true), Some(124), Some([Text("pool.ntp.org"), NotText]));
      NtpOutcome(r) == Exception && NtpAfter(n, r) == Ntp(true, 124, ["pool.ntp.org"])
  {
    var asked := [Text("pool.ntp.org"), NotText];
    assert asked[1..] == [NotText] && FirstNotText(asked) == 1;
    assert Leading(asked) == ["pool.ntp.org"];
    assert ["pool.ntp.org"][..0] == [];
  }

  /** The NTP part of patch_network_protocol. */
  class NetworkProtocol {
    var ntpEnabled: bool
    var ntpPort: int32
    var servers: seq<string>

    constructor (port: int32)
      ensures servers == []
    {
      ntpEnabled, ntpPort, servers := false, port, [];
    }

    /** One server asked for: stored last unless the list has it by now. */
    method AddServer(server: string)
      modifies this`servers
      ensures servers == if server in old(servers) then old(servers) else old(servers) + [server]
    {
      var add, j := true, 0;
      while j < |servers| && add
        invariant j <= |servers| && (add <==> server !in servers[..j])
      {
        add := server != servers[j];
        j := j + 1;
      }
      assert add ==> servers[..j] == servers;
      if add {
        servers := servers + [server];
      }
    }

    ghost function Abs(): Ntp
      reads this
    {
      Ntp(ntpEnabled, ntpPort, servers)
    }

    method PatchNtp(r: NtpRequest) returns (o: Response)
      modifies this
      ensures o == NtpOutcome(r) && Abs() == NtpAfter(old(Abs()), r)
      ensures o == BadRequest ==> Abs() == old(Abs())
    {
      NtpUnchanged(Abs(), r);
      assert Merge(servers, []) == servers;
      var result := false;
      if r.enabled.Some? {
        ntpEnabled := r.enabled.value;
        result := true;
      }
      if r.port.Some? {
        ntpPort := r.port.value;
        result := true;
      }
      if r.servers.Some? {
        o := StoreServers(r.servers.value);
        if o == Exception {
          return;
        }
        result := result || r.servers.value != [];
      }
      o := if result then Ok else BadRequest;
    }

    /** The loop over the servers asked for. */
    method StoreServers(asked: seq<Element>) returns (o: Response)
      modifies this`servers
      ensures servers == Merge(old(servers), Leading(asked))
      ensures o == if FirstNotText(asked) < |asked| then Exception else Ok
    {
      ghost var ts := Leading(asked);
      var i := 0;
      while i < |asked|
        invariant i <= |ts| && servers == Merge(old(servers), ts[..i])
      {
        if asked[i].NotText? {
          assert ts[..i] == ts;
          return Exception;
        }
        assert ts[..i + 1][..i] == ts[..i];
        AddServer(asked[i].text);
        i := i + 1;
      }
      assert ts[..i] == ts;
      return Ok;
    }
  }

  /** A request leaves the server list as it was exactly when every server the loop gets to is in it. */
  lemma {:induction false} NothingMerged(list: seq<string>, asked: seq<string>)
    ensures Merge(list, asked) == list <==> forall v :: v in asked ==> v in list
  {
    MergeKeeps(list, asked);
    if asked != [] && forall v :: v in asked ==> v in list {
      var init := asked[..|asked| - 1];
      assert asked == init + [asked[|asked| - 1]];
      NothingMerged(list, init);
    }
  }
}

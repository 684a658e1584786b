/** A Redfish collection: its members, their entries in g_record, and the numbers their ids are made of.
    Accounts, sessions and subscriptions are each kept in one. */
module Registry {
  import Decimal
  import opened NumberSet

  // ----- URIs -----

  function Uri(base: string, n: nat): string {
    base + "/" + Decimal.ToString(n)
  }

  /** get_current_object_name(uri, "/"): what follows the last slash, or all of it. */
  function ObjectName(uri: string): string {
    if uri == "" then ""
    else if uri[|uri| - 1] == '/' then ""
    else ObjectName(uri[..|uri| - 1]) + [uri[|uri| - 1]]
  }

  lemma {:induction false} NameAfterSlash(base: string, name: string)
    requires '/' !in name
    ensures ObjectName(base + "/" + name) == name
  {
    var uri := base + "/" + name;
    if name == "" {
      assert uri[|uri| - 1] == '/';
    } else {
      var init := name[..|name| - 1];
      assert uri[..|uri| - 1] == base + "/" + init && uri[|uri| - 1] == name[|name| - 1];
      assert name[|name| - 1] in name;
      assert '/' !in init;
      NameAfterSlash(base, init);
      assert name == init + [name[|name| - 1]];
    }
  }

  lemma NameOfUri(base: string, n: nat)
    ensures ObjectName(Uri(base, n)) == Decimal.ToString(n)
  {
    var s := Decimal.ToString(n);
    assert '/' !in s;
    NameAfterSlash(base, s);
  }

  lemma UriInjective(base: string, m: nat, n: nat)
    requires Uri(base, m) == Uri(base, n)
    ensures m == n
  {
    assert Uri(base, m)[|base| + 1..] == Decimal.ToString(m);
    assert Uri(base, n)[|base| + 1..] == Decimal.ToString(n);
    Decimal.ToStringInjective(m, n);
  }

  // ----- Rows: a collection as a value -----

  datatype Row<T> = Row(num: nat, data: T)

  /** The place of the row an id names, or the number of rows. */
  function FindRow<T>(rows: seq<Row<T>>, id: string): (i: nat)
    ensures i <= |rows|
    ensures i < |rows| ==> Decimal.ToString(rows[i].num) == id
    ensures forall k :: 0 <= k < i ==> Decimal.ToString(rows[k].num) != id
  {
    if rows == [] || Decimal.ToString(rows[0].num) == id then 0 else 1 + FindRow(rows[1..], id)
  }

  predicate DistinctNums<T>(rows: seq<Row<T>>) {
    forall i, j :: 0 <= i < j < |rows| ==> rows[i].num != rows[j].num
  }

  lemma FindRowAt<T>(rows: seq<Row<T>>, i: nat)
    requires DistinctNums(rows) && i < |rows|
    ensures FindRow(rows, Decimal.ToString(rows[i].num)) == i
  {
    var k := FindRow(rows, Decimal.ToString(rows[i].num));
    Decimal.ToStringInjective(rows[k].num, rows[i].num);
  }

  // ----- The objects -----

  class Resource<T> {
    const odataId: string
    const id: string
    var data: T

    constructor (odataId: string, id: string, data: T)
      ensures this.odataId == odataId && this.id == id && this.data == data
    {
      this.odataId, this.id, this.data := odataId, id, data;
    }
  }

  /** remove: the outcomes of a delete request. */
  datatype Removal = Removed | NotFound | Thrown

  class Registry<T> {
    const base: string
    const numbers: NumberPool
    var members: seq<Resource<T>>
    var record: map<string, Resource<T>>   // the entries of g_record below base
    ghost var rows: seq<Row<T>>

    ghost predicate MemberAt(i: nat)
      requires i < |members| && i < |rows|
      reads this, members[i]
    {
      && members[i].id == Decimal.ToString(rows[i].num) && members[i].odataId == Uri(base, rows[i].num)
      && members[i].data == rows[i].data
      && members[i].odataId in record && record[members[i].odataId] == members[i]
    }

    ghost predicate EntryAt(uri: string)
      requires uri in record
      reads this
    {
      record[uri] in members && record[uri].odataId == uri
    }

    /** Members and record entries correspond one to one. */
    ghost predicate Linked()
      reads this, members
    {
      && |rows| == |members| && DistinctNums(rows)
      && (forall i {:trigger MemberAt(i)} :: 0 <= i < |rows| ==> MemberAt(i))
      && (forall uri {:trigger EntryAt(uri)} :: uri in record ==> EntryAt(uri))
    }

    ghost predicate HasRow(n: nat)
      reads this`rows
    {
      exists i :: 0 <= i < |rows| && rows[i].num == n
    }

    /** The allocated numbers are exactly those of the members, each once. */
    ghost predicate Numbered()
      reads this`rows, numbers
    {
      && numbers.next < UINT_MAX
      && (forall i :: 0 <= i < |rows| ==> rows[i].num in numbers.used && rows[i].num < UINT_MAX)
      && (forall n :: n in numbers.used ==> HasRow(n))
    }

    ghost predicate Valid()
      reads this, members, numbers
    {
      Linked() && Numbered()
    }

    constructor (base: string, first: nat)
      requires first < UINT_MAX
      ensures Valid() && rows == [] && this.base == base && fresh(numbers)
      ensures numbers.next == first && numbers.used == {}
    {
      this.base := base;
      numbers := new NumberPool(first);
      members, record, rows := [], map[], [];
    }

    /** A number without a row has no entry in g_record, so a new resource overwrites none. */
    lemma FreeUri(num: nat)
      requires Linked() && !HasRow(num)
      ensures Uri(base, num) !in record
    {
      var uri := Uri(base, num);
      if uri in record {
        assert EntryAt(uri);
        var j :| 0 <= j < |members| && members[j] == record[uri];
        assert MemberAt(j);
        UriInjective(base, rows[j].num, num);
      }
    }

    /** The constructor enters the resource in g_record; add_member puts it last. */
    method Enter(r: Resource<T>, ghost num: nat)
      requires Linked() && !HasRow(num) && r !in members
      requires r.odataId == Uri(base, num) && r.id == Decimal.ToString(num)
      modifies this`members, this`record, this`rows
      ensures Linked() && members == old(members) + [r] && rows == old(rows) + [Row(num, r.data)]
    {
      FreeUri(num);
      record := record[r.odataId := r];
      members := members + [r];
      rows := rows + [Row(num, r.data)];
      forall i | 0 <= i < |rows| ensures MemberAt(i) {
        if i < |rows| - 1 {
          assert old(MemberAt(i));
        }
      }
      forall uri | uri in record ensures EntryAt(uri) {
        assert uri != r.odataId ==> old(EntryAt(uri));
      }
    }

    /** A new resource under the next number. */
    method Create(data: T) returns (r: Resource<T>)
      requires Valid() && CanAllocate(numbers.used, numbers.next)
      modifies this`members, this`record, this`rows, numbers
      ensures Valid() && fresh(r) && members == old(members) + [r]
      ensures IsNext(old(numbers.used), old(numbers.next), numbers.next)
      ensures numbers.used == old(numbers.used) + {numbers.next}
      ensures rows == old(rows) + [Row(numbers.next, data)]
    {
      var num := numbers.Allocate();
      var id := Decimal.ToString(num);
      r := new Resource(base + "/" + id, id, data);
      Enter(r, num);
      forall n | n in numbers.used ensures HasRow(n) {
        assert n == num || old(HasRow(n));
        assert rows[|rows| - 1].num == num;
        assert forall j :: 0 <= j < |old(rows)| ==> rows[j] == old(rows)[j];
      }
    }

    /** The scan for a member's id: an index in place of the iterator. */
    method FindMember(id: string) returns (i: nat)
      requires Valid()
      ensures i == FindRow(rows, id)
    {
      i := 0;
      while i < |members| && members[i].id != id
        invariant i <= |members|
        invariant forall k :: 0 <= k < i ==> Decimal.ToString(rows[k].num) != id
      {
        assert MemberAt(i);
        i := i + 1;
      }
      assert i < |members| ==> MemberAt(i);
      FindRowIs(rows, id, i);
    }

    /** A request below the base finds an entry in g_record exactly when the scan finds a member. */
    lemma RecordAgrees(uri: string, name: string)
      requires Valid() && uri == base + "/" + name && '/' !in name
      ensures ObjectName(uri) == name
      ensures uri in record <==> FindRow(rows, name) < |rows|
      ensures uri in record ==> record[uri] == members[FindRow(rows, name)]
    {
      NameAfterSlash(base, name);
      var k := FindRow(rows, name);
      if k < |rows| {
        assert MemberAt(k);
      }
      if uri in record {
        assert EntryAt(uri);
        var j :| 0 <= j < |members| && members[j] == record[uri];
        assert MemberAt(j);
        NameOfUri(base, rows[j].num);
        FindRowAt(rows, j);
      }
    }

    lemma OdataIdsDiffer(i: nat, j: nat)
      requires Linked() && i < |members| && j < |members| && i != j
      ensures members[i].odataId != members[j].odataId && members[i] != members[j]
    {
      assert MemberAt(i) && MemberAt(j);
      if members[i].odataId == members[j].odataId {
        UriInjective(base, rows[i].num, rows[j].num);
      }
    }

    /** delete (*iter) and erase(iter): the destructor takes the entry out of g_record. */
    method Erase(i: nat)
      requires Linked() && i < |members|
      modifies this`members, this`record, this`rows
      ensures Linked()
      ensures members == old(members)[..i] + old(members)[i + 1..] && rows == old(rows)[..i] + old(rows)[i + 1..]
      ensures forall m :: m in members ==> m in old(members)
    {
      ghost var was, wasRows, wasRecord := members, rows, record;
      forall j | 0 <= j < |was| && j != i ensures was[j].odataId != was[i].odataId {
        OdataIdsDiffer(i, j);
      }
      StillDistinct(i);
      record := record - {members[i].odataId};
      members := members[..i] + members[i + 1..];
      rows := rows[..i] + rows[i + 1..];
      forall j | 0 <= j < |rows| ensures MemberAt(j) {
        var k := if j < i then j else j + 1;
        assert members[j] == was[k] && rows[j] == wasRows[k];
        assert old(MemberAt(k));
      }
      forall uri | uri in record ensures EntryAt(uri) {
        assert old(EntryAt(uri));
        var j :| 0 <= j < |was| && was[j] == record[uri];
        assert j < i ==> members[j] == record[uri];
        assert j > i ==> members[j - 1] == record[uri];
      }
    }

    lemma StillDistinct(i: nat)
      requires DistinctNums(rows) && i < |rows|
      ensures DistinctNums(rows[..i] + rows[i + 1..])
      ensures forall j :: 0 <= j < |rows| && j != i ==> rows[j].num != rows[i].num
    {}

    /** The number is freed and the member erased. */
    method Discard(i: nat, num: nat)
      requires Valid() && i < |members| && num == rows[i].num
      modifies this`members, this`record, this`rows, numbers`used
      ensures Valid() && numbers.used == old(numbers.used) - {num}
      ensures members == old(members)[..i] + old(members)[i + 1..] && rows == old(rows)[..i] + old(rows)[i + 1..]
      ensures forall m :: m in members ==> m in old(members)
    {
      ghost var was := rows;
      StillDistinct(i);
      numbers.Delete(num);
      Erase(i);
      forall n | n in numbers.used ensures HasRow(n) {
        assert old(HasRow(n));
        var j :| 0 <= j < |was| && was[j].num == n;
        assert j < i ==> rows[j].num == n;
        assert j > i ==> rows[j - 1].num == n;
      }
    }

    /** The first half of a delete request: the place of the member and the number its id reads back as.  An id on
        record always finds its member; one past INT_MAX makes stoi throw. */
    method Lookup(uri: string, ghost name: string) returns (r: Removal, i: nat, num: nat)
      requires Valid() && uri == base + "/" + name && '/' !in name
      ensures i == FindRow(rows, name)
      ensures r == if i == |rows| then NotFound else if rows[i].num > Decimal.INT_MAX then Thrown else Removed
      ensures r == Removed ==> num == rows[i].num
    {
      num := 0;
      RecordAgrees(uri, name);
      i := FindMember(ObjectName(uri));
      if uri !in record {
        return NotFound, i, num;
      }
      assert MemberAt(i);
      Decimal.StoiOfToString(rows[i].num);
      var idNum := Decimal.Stoi(record[uri].id);
      if idNum.OutOfRange? {
        return Thrown, i, num;
      }
      return Removed, i, idNum.value;
    }

    /** remove_account and remove_subscription.  The id goes back through stoi, which throws past INT_MAX; nothing has
        been changed by then.  Otherwise the member scanned for exists, its number is freed and it is erased. */
    method Remove(uri: string, ghost name: string) returns (r: Removal)
      requires Valid() && uri == base + "/" + name && '/' !in name
      modifies this`members, this`record, this`rows, numbers`used
      ensures Valid()
      ensures (r, rows) == RemoveRow(old(rows), name)
      ensures r == Removed ==> numbers.used == old(numbers.used) - {old(rows)[FindRow(old(rows), name)].num}
      ensures r != Removed ==> numbers.used == old(numbers.used) && members == old(members) && record == old(record)
      ensures forall m :: m in members ==> m in old(members)
    {
      var i, num;
      r, i, num := Lookup(uri, name);
      if r == Removed {
        Discard(i, num);
      }
    }

    /** A member's fields assigned through its pointer. */
    method Assign(r: Resource<T>, ghost i: nat, data: T)
      requires Valid() && i < |members| && r == members[i]
      modifies r, this`rows
      ensures Valid() && rows == old(rows)[i := old(rows)[i].(data := data)]
    {
      forall j | 0 <= j < |members| && j != i ensures members[j] != members[i] {
        OdataIdsDiffer(i, j);
      }
      r.data := data;
      rows := rows[i := rows[i].(data := data)];
      assert DistinctNums(rows) by {
        assert forall j :: 0 <= j < |rows| ==> rows[j].num == old(rows)[j].num;
      }
      forall j | 0 <= j < |rows| ensures MemberAt(j) {
        assert old(MemberAt(j));
      }
      forall uri | uri in record ensures EntryAt(uri) {
        assert old(EntryAt(uri));
      }
      forall n | n in numbers.used ensures HasRow(n) {
        assert old(HasRow(n));
        var j :| 0 <= j < |old(rows)| && old(rows)[j].num == n;
        assert rows[j].num == n;
      }
    }
  }

  /** A delete request on the rows alone. */
  function RemoveRow<T>(rows: seq<Row<T>>, name: string): (Removal, seq<Row<T>>) {
    var i := FindRow(rows, name);
    if i == |rows| then (NotFound, rows)
    else if rows[i].num > Decimal.INT_MAX then (Thrown, rows)
    else (Removed, rows[..i] + rows[i + 1..])
  }

  /** The row at i is the first with that id. */
  predicate Named<T>(rows: seq<Row<T>>, id: string, i: nat)
    requires i < |rows|
  {
    Decimal.ToString(rows[i].num) == id && forall k :: 0 <= k < i ==> Decimal.ToString(rows[k].num) != id
  }

  lemma FindRowIs<T>(rows: seq<Row<T>>, id: string, i: nat)
    requires i <= |rows| && (i < |rows| ==> Decimal.ToString(rows[i].num) == id)
    requires forall k :: 0 <= k < i ==> Decimal.ToString(rows[k].num) != id
    ensures FindRow(rows, id) == i
  {}

  /** Deleting the resource a create request has just made gives the collection back, unless its number has grown past
      what stoi reads; then the resource can never be deleted. */
  lemma RemoveUndoesCreate<T>(rows: seq<Row<T>>, num: nat, data: T)
    requires DistinctNums(rows + [Row(num, data)])
    ensures RemoveRow(rows + [Row(num, data)], Decimal.ToString(num)) == (Removed, rows) <==> num <= Decimal.INT_MAX
    ensures num > Decimal.INT_MAX ==>
      RemoveRow(rows + [Row(num, data)], Decimal.ToString(num)) == (Thrown, rows + [Row(num, data)])
  {
    var all := rows + [Row(num, data)];
    FindRowAt(all, |rows|);
    assert all[..|rows|] + all[|rows| + 1..] == rows;
  }
}

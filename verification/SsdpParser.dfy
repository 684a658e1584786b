/** The packet parser as written: indices moving over one buffer, values copied into a packet's arrays. */
module SsdpParser {
  import opened SsdpText

  class LssdpPacket {
    const kind: array<char>
    const st: array<char>
    const usn: array<char>
    const location: array<char>
    const smId: array<char>
    const deviceType: array<char>
    var updateTime: int

    ghost const Repr: set<object>

    ghost predicate Valid() {
      Repr == {this, kind, st, usn, location, smId, deviceType} && Apart() && Sizes()
    }

    ghost predicate Apart() {
      && kind !in {st, usn, location, smId, deviceType}
      && st !in {usn, location, smId, deviceType}
      && usn !in {location, smId, deviceType}
      && location !in {smId, deviceType}
      && smId != deviceType
    }

    ghost predicate Sizes() {
      && kind.Length == st.Length == usn.Length == smId.Length == deviceType.Length == FIELD_LEN
      && location.Length == LOCATION_LEN
    }

    ghost function Contents(): (p: Packet)
      requires Valid()
      reads Repr
      ensures Sized(p)
    {
      Packet(kind[..], st[..], usn[..], location[..], smId[..], deviceType[..])
    }

    constructor ()
      ensures Valid() && fresh(Repr)
      ensures Contents() == EmptyPacket
    {
      kind := new char[FIELD_LEN](_ => NUL);
      st := new char[FIELD_LEN](_ => NUL);
      usn := new char[FIELD_LEN](_ => NUL);
      location := new char[LOCATION_LEN](_ => NUL);
      smId := new char[FIELD_LEN](_ => NUL);
      deviceType := new char[FIELD_LEN](_ => NUL);
      updateTime := 0;
      Repr := {this, kind, st, usn, location, smId, deviceType};
      new;
      assert Contents() == EmptyPacket;
    }
  }

  /** memcpy(dst, value, min(|value|, sizeof dst - 1)). */
  method CopyValue(dst: array<char>, value: string)
    requires dst.Length > 0
    modifies dst
    ensures dst[..] == Overlay(old(dst[..]), value)
  {
    var n := if |value| < dst.Length then |value| else dst.Length - 1;
    for k := 0 to n
      invariant forall i :: 0 <= i < k ==> dst[i] == value[i]
      invariant forall i :: k <= i < dst.Length ==> dst[i] == old(dst[i])
    {
      dst[k] := value[k];
    }
    assert n == Min(|value|, |old(dst[..])| - 1);
  }

  /** First colon of s[start..end], both ends included. */
  method GetColonIndex(s: string, start: nat, end: nat) returns (r: int)
    requires start <= end + 1 && end < |s|
    ensures r == -1 <==> ':' !in s[start..end + 1]
    ensures r != -1 ==> start <= r <= end && r - start == ColonAt(s[start..end + 1])
  {
    var i := start;
    while i <= end
      invariant start <= i <= end + 1
      invariant forall k :: start <= k < i ==> s[k] != ':'
    {
      if s[i] == ':' {
        ColonAtIs(s[start..end + 1], i - start);
        assert s[i] in s[start..end + 1];
        return i;
      }
      i := i + 1;
    }
    return -1;
  }

  lemma ColonAtIs(s: string, n: nat)
    requires n < |s| && s[n] == ':' && forall k :: 0 <= k < n ==> s[k] != ':'
    ensures ColonAt(s) == n
  {
    assert s[ColonAt(s)] == ':' || ColonAt(s) == |s|;
  }

  lemma SliceOfSlice(s: string, a: nat, b: nat, c: nat, d: nat)
    requires a <= b <= |s| && c <= d <= b - a
    ensures s[a..b][c..d] == s[a + c..a + d]
  {
    var x, y := s[a..b][c..d], s[a + c..a + d];
    assert |x| == |y|;
    assert forall k :: 0 <= k < |x| ==> x[k] == y[k];
    assert x == y;
  }

  /** Narrows [start..end] to its visible characters; false where there are none.
      The right scan compares a signed index with an unsigned start, so start must not be 0. */
  method TrimSpaces(s: string, start: nat, end: nat) returns (ok: bool, i: int, j: int)
    requires 1 <= start <= end < |s|
    ensures ok <==> Trim(s[start..end + 1]) != ""
    ensures ok ==> start <= i <= j <= end && s[i..j + 1] == Trim(s[start..end + 1])
  {
    i, j := start, end;
    while i <= end && Blank(s[i])
      invariant start <= i <= end + 1
      invariant forall k :: start <= k < i ==> Blank(s[k])
    {
      i := i + 1;
    }
    while j >= start && Blank(s[j])
      invariant start - 1 <= j <= end
      invariant forall k :: j < k <= end ==> Blank(s[k])
    {
      j := j - 1;
    }
    ghost var t := s[start..end + 1];
    if i > j {
      TrimAllBlank(t);
      return false, i, j;
    }
    TrimBetween(t, i - start, j + 1 - start);
    SliceOfSlice(s, start, end + 1, i - start, j + 1 - start);
    return true, i, j;
  }

  /** The line's first colon, or -1 where there is none that separates a name from a value. */
  method FindColon(data: string, start: nat, end: nat) returns (colon: int)
    requires 1 <= start <= end < |data|
    ensures colon == -1 ==> EntryOf(data[start..end + 1]) == NoField
    ensures colon != -1 ==> start < colon < end && ColonAt(data[start..end + 1]) == colon - start
  {
    ghost var line := data[start..end + 1];
    if data[start] == ':' {
      return -1;
    }
    colon := GetColonIndex(data, start + 1, end);
    assert line[1..] == data[start + 1..end + 1];
    assert ColonAt(line) == 1 + ColonAt(line[1..]);
    if colon == end {
      return -1;
    }
  }

  lemma Halves(data: string, start: nat, colon: nat, end: nat)
    requires start < colon < end < |data| && ColonAt(data[start..end + 1]) == colon - start
    ensures var name, value := Trim(data[start..colon]), Trim(data[colon + 1..end + 1]);
      EntryOf(data[start..end + 1]) == if name == "" || value == "" then NoField else Entry(FieldOf(name), value)
  {
    var line := data[start..end + 1];
    assert line[..colon - start] == data[start..colon];
    assert line[colon - start + 1..] == data[colon + 1..end + 1];
  }

  /** The first half of parse_field_line: where the name and the value of data[start..end] lie. */
  method FindEntry(data: string, start: nat, end: nat) returns (ok: bool, name: string, value: string)
    requires 1 <= start <= end < |data|
    ensures EntryOf(data[start..end + 1]) == if ok then Entry(FieldOf(name), value) else NoField
  {
    name, value := "", "";
    var colon := FindColon(data, start, end);
    if colon == -1 {
      return false, name, value;
    }
    Halves(data, start, colon, end);
    var i, j;
    ok, i, j := TrimSpaces(data, start, colon - 1);
    if !ok {
      return;
    }
    name := data[i..j + 1];
    ok, i, j := TrimSpaces(data, colon + 1, end);
    if !ok {
      return;
    }
    value := data[i..j + 1];
  }

  /** The second half: the value goes to the array its name selects, if any. */
  method StoreEntry(name: string, value: string, packet: LssdpPacket)
    requires packet.Valid()
    modifies packet.Repr - {packet}
    ensures packet.Contents() == Store(old(packet.Contents()), FieldOf(name), value)
  {
    if SameName(name, "st") || SameName(name, "nt") {
      CopyValue(packet.st, value);
    } else if SameName(name, "usn") {
      CopyValue(packet.usn, value);
    } else if SameName(name, "location") {
      CopyValue(packet.location, value);
    } else if SameName(name, "sm_id") {
      CopyValue(packet.smId, value);
    } else if SameName(name, "dev_type") {
      CopyValue(packet.deviceType, value);
    }
  }

  /** Reads one line, data[start..end] both ends included, into the packet. */
  method ParseFieldLine(data: string, start: nat, end: nat, packet: LssdpPacket) returns (r: int)
    requires packet.Valid()
    requires 1 <= start <= end < |data|
    modifies packet.Repr - {packet}
    ensures packet.Contents() == ParseLine(old(packet.Contents()), data[start..end + 1])
    ensures r == if EntryOf(data[start..end + 1]).NoField? then -1 else 0
  {
    var ok, name, value := FindEntry(data, start, end);
    if !ok {
      return -1;
    }
    StoreEntry(name, value, packet);
    return 0;
  }

  /** strlen: a buffer's text stops at its first NUL. */
  method Strlen(data: string) returns (n: nat)
    ensures n <= |data| && NUL !in data[..n]
    ensures n < |data| ==> data[n] == NUL
  {
    n := 0;
    while n < |data| && data[n] != NUL
      invariant n <= |data| && NUL !in data[..n]
    {
      n := n + 1;
    }
  }

  /** Recognises the method header; start is its length, 0 if there is none. */
  method ReadHeader(data: string, packet: LssdpPacket) returns (start: nat)
    requires packet.Valid()
    modifies packet.Repr - {packet}
    ensures start == MethodOf(data).1 <= |data|
    ensures start == 0 ==> packet.Contents() == old(packet.Contents())
    ensures start > 0 ==>
      packet.Contents() == old(packet.Contents()).(kind := Overlay(old(packet.Contents()).kind, MethodOf(data).0))
  {
    if StartsWith(data, HEADER_MSEARCH) {
      CopyValue(packet.kind, MSEARCH);
      start := |HEADER_MSEARCH|;
    } else if StartsWith(data, HEADER_NOTIFY) {
      CopyValue(packet.kind, NOTIFY);
      start := |HEADER_NOTIFY|;
    } else if StartsWith(data, HEADER_RESPONSE) {
      CopyValue(packet.kind, RESPONSE);
      start := |HEADER_RESPONSE|;
    } else {
      start := 0;
    }
  }

  /** One pass over the rest of the buffer; each CRLF that closes a non-empty line hands the line on. */
  method ReadFields(data: string, header: nat, packet: LssdpPacket)
    requires packet.Valid() && 1 <= header <= |data|
    modifies packet.Repr - {packet}
    ensures packet.Contents() == FoldLines(old(packet.Contents()), Lines(data[header..]))
  {
    ghost var final := FoldLines(packet.Contents(), Lines(data[header..]));
    var start, i := header, header;
    while i < |data|
      invariant 1 <= start <= i <= |data|
      invariant NoLineEnd(data, start, i)
      invariant FoldLines(packet.Contents(), Lines(data[start..])) == final
    {
      start := ReadAt(data, start, i, packet);
      i := i + 1;
    }
    NoLineLeft(data, start);
  }

  /** One turn of the loop: the start moves behind a line that ends here. */
  method ReadAt(data: string, start: nat, i: nat, packet: LssdpPacket) returns (next: nat)
    requires packet.Valid() && 1 <= start <= i < |data| && NoLineEnd(data, start, i)
    modifies packet.Repr - {packet}
    ensures 1 <= next <= i + 1 && NoLineEnd(data, next, i + 1)
    ensures FoldLines(packet.Contents(), Lines(data[next..])) == FoldLines(old(packet.Contents()), Lines(data[start..]))
  {
    if data[i] == '\n' && i - 1 > start && data[i - 1] == '\r' {
      ReadLine(data, start, i, packet);
      return i + 1;
    }
    NoLineHere(data, start, i);
    return start;
  }

  lemma NoLineHere(data: string, start: nat, i: nat)
    requires 1 <= start <= i < |data| && NoLineEnd(data, start, i)
    requires !(data[i] == '\n' && i - 1 > start && data[i - 1] == '\r')
    ensures NoLineEnd(data, start, i + 1)
  {}

  /** The line that ends before the CRLF at i is folded in; the lines after it remain. */
  method ReadLine(data: string, start: nat, i: nat, packet: LssdpPacket)
    requires packet.Valid() && 1 <= start && start + 2 <= i < |data|
    requires NoLineEnd(data, start, i) && CrLfAt(data, i)
    modifies packet.Repr - {packet}
    ensures FoldLines(packet.Contents(), Lines(data[i + 1..]))
         == FoldLines(old(packet.Contents()), Lines(data[start..]))
  {
    LineRead(data, start, i);
    FoldFirst(packet.Contents(), data[start..i - 2 + 1], Lines(data[i + 1..]));
    var _ := ParseFieldLine(data, start, i - 2, packet);
  }

  lemma FoldFirst(p: Packet, line: string, rest: seq<string>)
    requires Sized(p)
    ensures FoldLines(p, [line] + rest) == FoldLines(ParseLine(p, line), rest)
  {
    assert ([line] + rest)[1..] == rest;
  }

  /** No line that starts at start ends before i. */
  ghost predicate NoLineEnd(data: string, start: nat, i: nat)
    requires i <= |data|
  {
    forall k :: start + 2 <= k < i ==> !CrLfAt(data, k)
  }

  lemma LineRead(data: string, start: nat, i: nat)
    requires start + 2 <= i < |data| && NoLineEnd(data, start, i) && CrLfAt(data, i)
    ensures Lines(data[start..]) == [data[start..i - 2 + 1]] + Lines(data[i + 1..])
  {
    var rest := data[start..];
    forall k | 0 <= k < i - start ensures !EndsLine(rest, k) {
      assert k >= 2 ==> !CrLfAt(data, start + k);
    }
    LinesStep(rest, i - start);
    assert rest[..i - start - 1] == data[start..i - 2 + 1];
    assert rest[i - start + 1..] == data[i + 1..];
  }

  lemma NoLineLeft(data: string, start: nat)
    requires start <= |data| && NoLineEnd(data, start, |data|)
    ensures Lines(data[start..]) == []
  {
    forall k | 0 <= k < |data| - start ensures !EndsLine(data[start..], k) {
      assert k >= 2 ==> !CrLfAt(data, start + k);
    }
    LinesEnd(data[start..]);
  }

  /** now is what get_current_time returns, negative on failure.
      A buffer of BUFFER_LEN bytes would leave strlen no NUL to stop at. */
  method PacketParser(data: string, now: int, packet: LssdpPacket) returns (r: int)
    requires packet.Valid() && packet.Contents() == EmptyPacket
    requires |data| < BUFFER_LEN
    modifies packet.Repr
    ensures r == if Parse(data).Accepted? && now >= 0 then 0 else -1
    ensures Parse(data).Accepted? ==> packet.Contents() == Parse(data).packet
    ensures r == 0 ==> packet.updateTime == now
  {
    var len := Strlen(data);
    if len != |data| {
      assert data[len] in data;
      return -1;
    }
    assert data[..len] == data;
    var start := ReadHeader(data, packet);
    if start == 0 {
      return -1;
    }
    ReadFields(data, start, packet);
    if now < 0 {
      return -1;
    }
    packet.updateTime := now;
    return 0;
  }
}

/** What an SSDP packet means, as text: lines, fields and the packet they are folded into.
    The index loops of the parser are proved against these definitions, and so are the printers. */
module SsdpText {

  const NUL := '\0'
  const CRLF := "\r\n"

  const FIELD_LEN := 128
  const LOCATION_LEN := 256
  const BUFFER_LEN := 2048

  const MSEARCH := "M-SEARCH"
  const NOTIFY := "NOTIFY"
  const RESPONSE := "RESPONSE"
  const HEADER_MSEARCH := "M-SEARCH * HTTP/1.1\r\n"
  const HEADER_NOTIFY := "NOTIFY * HTTP/1.1\r\n"
  const HEADER_RESPONSE := "HTTP/1.1 200 OK\r\n"

  // ----- Characters and trimming -----

  predicate IsPrint(c: char) {
    ' ' <= c <= '~'
  }

  predicate IsSpace(c: char) {
    c == ' ' || 9 <= c as int <= 13
  }

  /** The characters trim_spaces drops at either end. */
  predicate Blank(c: char) {
    !IsPrint(c) || IsSpace(c)
  }

  function TrimLeft(s: string): string {
    if s != "" && Blank(s[0]) then TrimLeft(s[1..]) else s
  }

  function TrimRight(s: string): string {
    if s != "" && Blank(s[|s| - 1]) then TrimRight(s[..|s| - 1]) else s
  }

  function Trim(s: string): string {
    TrimRight(TrimLeft(s))
  }

  predicate Trimmed(s: string) {
    s != "" ==> !Blank(s[0]) && !Blank(s[|s| - 1])
  }

  lemma {:induction false} TrimLeftAt(s: string, i: nat)
    requires i <= |s| && forall k :: 0 <= k < i ==> Blank(s[k])
    requires i < |s| ==> !Blank(s[i])
    ensures TrimLeft(s) == s[i..]
  {
    if i > 0 {
      assert Blank(s[0]);
      TrimLeftAt(s[1..], i - 1);
      assert s[1..][i - 1..] == s[i..];
    }
  }

  lemma {:induction false} TrimRightAt(s: string, j: nat)
    requires j <= |s| && forall k :: j <= k < |s| ==> Blank(s[k])
    requires j > 0 ==> !Blank(s[j - 1])
    ensures TrimRight(s) == s[..j]
  {
    if j < |s| {
      assert Blank(s[|s| - 1]);
      TrimRightAt(s[..|s| - 1], j);
      assert s[..|s| - 1][..j] == s[..j];
    }
  }

  /** Trim keeps exactly the stretch from the first to the last character that is not blank. */
  lemma TrimBetween(s: string, i: nat, j: nat)
    requires i < j <= |s|
    requires forall k :: 0 <= k < i ==> Blank(s[k])
    requires forall k :: j <= k < |s| ==> Blank(s[k])
    requires !Blank(s[i]) && !Blank(s[j - 1])
    ensures Trim(s) == s[i..j]
  {
    TrimLeftAt(s, i);
    TrimRightAt(s[i..], j - i);
    assert s[i..][..j - i] == s[i..j];
  }

  lemma TrimAllBlank(s: string)
    requires forall k :: 0 <= k < |s| ==> Blank(s[k])
    ensures Trim(s) == ""
  {
    TrimLeftAt(s, |s|);
  }

  lemma {:induction false} TrimLeftSuffix(s: string) returns (i: nat)
    ensures i <= |s| && TrimLeft(s) == s[i..]
    ensures i < |s| ==> !Blank(s[i])
    ensures forall k :: 0 <= k < i ==> Blank(s[k])
  {
    if s != "" && Blank(s[0]) {
      var j := TrimLeftSuffix(s[1..]);
      i := j + 1;
      assert s[1..][j..] == s[i..];
      assert forall k :: 1 <= k < i ==> s[k] == s[1..][k - 1];
    } else {
      i := 0;
    }
  }

  lemma {:induction false} TrimRightPrefix(s: string) returns (j: nat)
    ensures j <= |s| && TrimRight(s) == s[..j]
    ensures j > 0 ==> !Blank(s[j - 1])
    ensures forall k :: j <= k < |s| ==> Blank(s[k])
  {
    if s != "" && Blank(s[|s| - 1]) {
      j := TrimRightPrefix(s[..|s| - 1]);
      assert s[..|s| - 1][..j] == s[..j];
    } else {
      j := |s|;
    }
  }

  /** A value is left alone by trimming exactly when both its ends are visible characters. */
  lemma TrimFixed(s: string)
    ensures Trimmed(Trim(s))
    ensures Trim(s) == s <==> Trimmed(s)
    ensures |Trim(s)| <= |s|
    ensures forall c :: c in Trim(s) ==> c in s
  {
    var i := TrimLeftSuffix(s);
    var j := TrimRightPrefix(s[i..]);
    assert s[i..][..j] == s[i..i + j];
  }

  /** With the characters written out: spaces, control characters and anything past '~' go at either end, up to the
      first and the last character that is none of them. */
  lemma TrimOuter(p: string, v: string, q: string)
    requires forall c :: c in p || c in q ==> c == ' ' || 9 <= c as int <= 13 || (c as int) < 32 || c as int > 126
    requires v != "" ==> '!' <= v[0] <= '~' && '!' <= v[|v| - 1] <= '~'
    ensures Trim(p + v + q) == v
  {
    var s := p + v + q;
    assert forall k :: 0 <= k < |p| ==> s[k] == p[k] && p[k] in p;
    assert forall k :: |p| + |v| <= k < |s| ==> s[k] == q[k - |p| - |v|] && s[k] in q;
    if v == "" {
      TrimAllBlank(s);
    } else {
      TrimBetween(s, |p|, |p| + |v|);
      assert s[|p|..|p| + |v|] == v;
    }
  }

  // ----- Lines -----

  /** A line feed at k ends the line that starts at 0: the test inside the parser's loop. */
  predicate EndsLine(s: string, k: nat) {
    2 <= k < |s| && s[k] == '\n' && s[k - 1] == '\r'
  }

  function LineFeed(s: string, from: nat): (e: nat)
    requires from <= |s|
    ensures from <= e <= |s|
    ensures e < |s| ==> EndsLine(s, e)
    ensures forall k :: from <= k < e ==> !EndsLine(s, k)
    decreases |s| - from
  {
    if from == |s| || EndsLine(s, from) then from else LineFeed(s, from + 1)
  }

  /** The lines of a packet after its method header; text after the last CRLF is no line. */
  function Lines(s: string): (ls: seq<string>)
    decreases |s|
  {
    var e := LineFeed(s, 0);
    if e == |s| then [] else [s[..e - 1]] + Lines(s[e + 1..])
  }

  lemma LinesStep(s: string, e: nat)
    requires EndsLine(s, e) && forall k :: 0 <= k < e ==> !EndsLine(s, k)
    ensures Lines(s) == [s[..e - 1]] + Lines(s[e + 1..])
  {
    var f := LineFeed(s, 0);
    assert f == e;
  }

  lemma LinesEnd(s: string)
    requires forall k :: 0 <= k < |s| ==> !EndsLine(s, k)
    ensures Lines(s) == []
  {
    var f := LineFeed(s, 0);
    assert f == |s|;
  }

  predicate CrLfAt(s: string, k: nat) {
    0 < k < |s| && s[k - 1] == '\r' && s[k] == '\n'
  }

  predicate HasCrLf(s: string) {
    exists k :: 0 <= k < |s| && CrLfAt(s, k)
  }

  function JoinLines(ls: seq<string>): string {
    if ls == [] then "" else ls[0] + CRLF + JoinLines(ls[1..])
  }

  lemma LineThenRest(l: string, rest: string)
    requires l != "" && !HasCrLf(l)
    ensures Lines(l + CRLF + rest) == [l] + Lines(rest)
  {
    var s, e := l + CRLF + rest, |l| + 1;
    assert s[e] == '\n' && s[e - 1] == '\r';
    forall k | 0 <= k < e ensures !EndsLine(s, k) {
      if k < |l| {
        assert !CrLfAt(l, k);
      }
    }
    LinesStep(s, e);
    assert s[..e - 1] == l && s[e + 1..] == rest;
  }

  /** Splitting undoes joining: each line ends at its own CRLF, and the blank line that closes a packet is none. */
  lemma {:induction false} LinesOfJoin(ls: seq<string>)
    requires forall i :: 0 <= i < |ls| ==> ls[i] != "" && !HasCrLf(ls[i])
    ensures Lines(JoinLines(ls) + CRLF) == ls
  {
    if ls == [] {
      LinesEnd(JoinLines(ls) + CRLF);
    } else {
      var rest := JoinLines(ls[1..]) + CRLF;
      assert JoinLines(ls) + CRLF == ls[0] + CRLF + rest;
      LineThenRest(ls[0], rest);
      LinesOfJoin(ls[1..]);
    }
  }

  // ----- Fields -----

  function ColonAt(s: string): (n: nat)
    ensures n <= |s|
    ensures n < |s| ==> s[n] == ':'
    ensures forall k :: 0 <= k < n ==> s[k] != ':'
  {
    if s == "" || s[0] == ':' then 0 else 1 + ColonAt(s[1..])
  }

  function ToLower(c: char): char {
    if 'A' <= c <= 'Z' then c + 32 as char else c
  }

  /** strncasecmp on two texts of one length. */
  predicate SameName(a: string, b: string) {
    |a| == |b| && forall i :: 0 <= i < |a| ==> ToLower(a[i]) == ToLower(b[i])
  }

  datatype Field = St | Usn | Location | SmId | DevType | Other

  function FieldOf(name: string): Field {
    if SameName(name, "st") || SameName(name, "nt") then St
    else if SameName(name, "usn") then Usn
    else if SameName(name, "location") then Location
    else if SameName(name, "sm_id") then SmId
    else if SameName(name, "dev_type") then DevType
    else Other
  }

  /** Names are told apart without regard to case. */
  lemma CaseIgnored(a: string, b: string)
    requires |a| == |b|
    requires forall i :: 0 <= i < |a| ==> a[i] == b[i] || ('A' <= a[i] <= 'Z' && b[i] as int == a[i] as int + 32)
    ensures FieldOf(a) == FieldOf(b)
  {
    forall c: string | |c| == |a| ensures SameName(a, c) <==> SameName(b, c) {
      assert forall i :: 0 <= i < |a| ==> ToLower(a[i]) == ToLower(b[i]);
    }
  }

  lemma LowerNames()
    ensures FieldOf("st") == FieldOf("nt") == St
    ensures FieldOf("usn") == Usn && FieldOf("sm_id") == SmId
    ensures FieldOf("location") == Location && FieldOf("dev_type") == DevType
  {
    assert ToLower("nt"[0]) != ToLower("st"[0]);
    assert ToLower("dev_type"[0]) != ToLower("location"[0]);
  }

  /** The field a line carries and its value; None where parse_field_line gives up on the line. */
  datatype Entry = NoField | Entry(field: Field, value: string)

  function EntryOf(line: string): Entry {
    var colon := ColonAt(line);
    if colon == 0 || colon >= |line| - 1 then NoField
    else
      var name, value := Trim(line[..colon]), Trim(line[colon + 1..]);
      if name == "" || value == "" then NoField else Entry(FieldOf(name), value)
  }

  // ----- Packets -----

  /** The contents of a struct lssdp_packet: fixed char arrays that start zeroed. */
  datatype Packet = Packet(kind: string, st: string, usn: string, location: string, smId: string, deviceType: string)

  function Zeros(n: nat): (s: string)
    ensures |s| == n
  {
    seq(n, i => NUL)
  }

  const EmptyPacket := Packet(Zeros(FIELD_LEN), Zeros(FIELD_LEN), Zeros(FIELD_LEN),
                              Zeros(LOCATION_LEN), Zeros(FIELD_LEN), Zeros(FIELD_LEN))

  /** A packet whose method has just been recognised. */
  function Begin(kind: string): (p: Packet)
    ensures Sized(p)
  {
    EmptyPacket.(kind := Overlay(EmptyPacket.kind, kind))
  }

  function Min(a: nat, b: nat): nat {
    if a < b then a else b
  }

  /** memcpy of a value over a buffer, cut so that the last byte is never written: what lay beyond stays. */
  function Overlay(buffer: string, value: string): (r: string)
    requires buffer != ""
    ensures |r| == |buffer|
  {
    var n := Min(|value|, |buffer| - 1);
    value[..n] + buffer[n..]
  }

  /** The C string a buffer holds. */
  function CStr(buffer: string): (s: string)
    ensures |s| <= |buffer| && s == buffer[..|s|] && NUL !in s
    ensures |s| < |buffer| ==> buffer[|s|] == NUL
  {
    if buffer == "" || buffer[0] == NUL then "" else [buffer[0]] + CStr(buffer[1..])
  }

  predicate Sized(p: Packet) {
    |p.kind| == |p.st| == |p.usn| == |p.smId| == |p.deviceType| == FIELD_LEN && |p.location| == LOCATION_LEN
  }

  function Store(p: Packet, field: Field, value: string): (q: Packet)
    requires Sized(p)
    ensures Sized(q)
  {
    match field
    case St => p.(st := Overlay(p.st, value))
    case Usn => p.(usn := Overlay(p.usn, value))
    case Location => p.(location := Overlay(p.location, value))
    case SmId => p.(smId := Overlay(p.smId, value))
    case DevType => p.(deviceType := Overlay(p.deviceType, value))
    case Other => p
  }

  function ParseLine(p: Packet, line: string): (q: Packet)
    requires Sized(p)
    ensures Sized(q)
  {
    match EntryOf(line)
    case NoField => p
    case Entry(field, value) => Store(p, field, value)
  }

  function FoldLines(p: Packet, ls: seq<string>): (q: Packet)
    requires Sized(p)
    ensures Sized(q)
    decreases |ls|
  {
    if ls == [] then p else FoldLines(ParseLine(p, ls[0]), ls[1..])
  }

  predicate StartsWith(data: string, header: string) {
    |header| < |data| && data[..|header|] == header
  }

  /** The method name and the length of the header that announced it. */
  function MethodOf(data: string): (string, nat) {
    if StartsWith(data, HEADER_MSEARCH) then (MSEARCH, |HEADER_MSEARCH|)
    else if StartsWith(data, HEADER_NOTIFY) then (NOTIFY, |HEADER_NOTIFY|)
    else if StartsWith(data, HEADER_RESPONSE) then (RESPONSE, |HEADER_RESPONSE|)
    else ("", 0)
  }

  datatype Parsed = Rejected | Accepted(packet: Packet)

  function Parse(data: string): (r: Parsed)
    ensures r.Accepted? ==> Sized(r.packet)
  {
    var (m, n) := MethodOf(data);
    if NUL in data || n == 0 then Rejected
    else Accepted(FoldLines(Begin(m), Lines(data[n..])))
  }

  /** A header with nothing after it is no packet. */
  lemma BareHeaders()
    ensures Parse("M-SEARCH * HTTP/1.1\r\n") == Rejected
    ensures Parse("NOTIFY * HTTP/1.1\r\n") == Rejected
    ensures Parse("HTTP/1.1 200 OK\r\n") == Rejected
  {
    assert HEADER_MSEARCH[0] == 'M' && HEADER_NOTIFY[0] == 'N' && HEADER_RESPONSE[0] == 'H';
  }

  predicate Under(data: string, header: string) {
    |data| > |header| && data[..|header|] == header
  }

  /** A datagram is a packet exactly when it holds no NUL and starts with one of the three headers and more. */
  lemma AcceptedExactly(data: string)
    ensures Parse(data).Accepted?
       <==> NUL !in data && (Under(data, "M-SEARCH * HTTP/1.1\r\n") || Under(data, "NOTIFY * HTTP/1.1\r\n")
                             || Under(data, "HTTP/1.1 200 OK\r\n"))
  {}
}

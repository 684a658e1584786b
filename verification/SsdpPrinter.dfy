/** The three packets this node sends, and what a peer reads out of them. */
module SsdpPrinter {
  import opened SsdpText
  import Decimal

  const ADDR_MULTICAST := "239.255.255.250"

  /** The header fields a node announces; each is a C string in a char[128]. */
  datatype Header = Header(searchTarget: string, usn: string,
                           prefix: string, domain: string, suffix: string,
                           smId: string, deviceType: string)

  type NamedValue = (string, string)

  function LocationText(h: Header, ip: string): string {
    h.prefix + (if |h.domain| > 0 then h.domain else ip) + h.suffix
  }

  function MsearchFields(h: Header, port: nat): seq<NamedValue> {
    [ ("HOST", ADDR_MULTICAST + ":" + Decimal.ToString(port)),
      ("MAN", "\"ssdp:discover\""),
      ("MX", "1"),
      ("ST", h.searchTarget),
      ("USER-AGENT", "OS/version product/version") ]
  }

  function NotifyFields(h: Header, ip: string, port: nat): seq<NamedValue> {
    [ ("HOST", ADDR_MULTICAST + ":" + Decimal.ToString(port)),
      ("CACHE-CONTROL", "max-age=120"),
      ("LOCATION", LocationText(h, ip)),
      ("SERVER", "OS/version product/version"),
      ("NT", h.searchTarget),
      ("NTS", "ssdp:alive"),
      ("USN", h.usn),
      ("SM_ID", h.smId),
      ("DEV_TYPE", h.deviceType) ]
  }

  function ResponseFields(h: Header, ip: string): seq<NamedValue> {
    [ ("CACHE-CONTROL", "max-age=120"),
      ("DATE", ""),
      ("EXT", ""),
      ("LOCATION", LocationText(h, ip)),
      ("SERVER", "OS/version product/version"),
      ("ST", h.searchTarget),
      ("USN", h.usn),
      ("SM_ID", h.smId),
      ("DEV_TYPE", h.deviceType) ]
  }

  function LineOf(f: NamedValue): string {
    f.0 + ":" + f.1
  }

  function LinesOf(fs: seq<NamedValue>): (ls: seq<string>)
    ensures |ls| == |fs|
    ensures forall i :: 0 <= i < |fs| ==> ls[i] == LineOf(fs[i])
  {
    seq(|fs|, i requires 0 <= i < |fs| => LineOf(fs[i]))
  }

  function PacketText(header: string, fs: seq<NamedValue>): string {
    header + JoinLines(LinesOf(fs)) + CRLF
  }

  /** snprintf into a buffer of BUFFER_LEN bytes. */
  function Snprintf(text: string): string {
    if |text| < BUFFER_LEN then text else text[..BUFFER_LEN - 1]
  }

  function Msearch(h: Header, port: nat): string {
    Snprintf(PacketText(HEADER_MSEARCH, MsearchFields(h, port)))
  }

  function Notify(h: Header, ip: string, port: nat): string {
    Snprintf(PacketText(HEADER_NOTIFY, NotifyFields(h, ip, port)))
  }

  function Response(h: Header, ip: string): string {
    Snprintf(PacketText(HEADER_RESPONSE, ResponseFields(h, ip)))
  }

  // ----- What a receiver sees -----

  /** A packet's fields as C strings. */
  datatype Seen = Seen(kind: string, st: string, usn: string, location: string, smId: string, deviceType: string)

  function View(p: Packet): Seen {
    Seen(CStr(p.kind), CStr(p.st), CStr(p.usn), CStr(p.location), CStr(p.smId), CStr(p.deviceType))
  }

  function Cut(s: string, size: nat): string
    requires size > 0
  {
    if |s| < size then s else s[..size - 1]
  }

  function Announced(kind: string, h: Header, ip: string): Seen {
    Seen(kind, Trim(h.searchTarget), Trim(h.usn), Cut(Trim(LocationText(h, ip)), LOCATION_LEN),
         Trim(h.smId), Trim(h.deviceType))
  }

  /** A C string in a buffer of the given size. */
  predicate Fits(s: string, size: nat) {
    |s| < size && NUL !in s
  }

  predicate ValidHeader(h: Header) {
    && Fits(h.searchTarget, FIELD_LEN) && Fits(h.usn, FIELD_LEN)
    && Fits(h.prefix, FIELD_LEN) && Fits(h.domain, FIELD_LEN) && Fits(h.suffix, FIELD_LEN)
    && Fits(h.smId, FIELD_LEN) && Fits(h.deviceType, FIELD_LEN)
  }

  /** No value breaks its own line. */
  predicate OneLineEach(h: Header, ip: string) {
    && !HasCrLf(h.searchTarget) && !HasCrLf(h.usn) && !HasCrLf(LocationText(h, ip))
    && !HasCrLf(h.smId) && !HasCrLf(h.deviceType)
  }

  // ----- Printing one field and reading it back -----

  /** A field name as the printers use them: visible characters and no colon. */
  predicate PlainName(n: string) {
    n != "" && forall c :: c in n ==> '!' <= c <= '~' && c != ':'
  }

  /** What the parser makes of a printed field. */
  function Tag(f: NamedValue): (Field, string) {
    (FieldOf(f.0), Trim(f.1))
  }

  function Tags(fs: seq<NamedValue>): (ts: seq<(Field, string)>)
    ensures |ts| == |fs| && forall i :: 0 <= i < |fs| ==> ts[i] == Tag(fs[i])
  {
    seq(|fs|, i requires 0 <= i < |fs| => Tag(fs[i]))
  }

  function StoreAll(p: Packet, ts: seq<(Field, string)>): (q: Packet)
    requires Sized(p)
    ensures Sized(q)
    decreases |ts|
  {
    if ts == [] then p else StoreAll(Store(p, ts[0].0, ts[0].1), ts[1..])
  }

  lemma PlainNameTrimmed(n: string)
    requires PlainName(n)
    ensures Trim(n) == n && ColonAt(n) == |n|
  {
    assert n[0] in n && n[|n| - 1] in n;
    TrimFixed(n);
    assert forall i :: 0 <= i < |n| ==> n[i] in n;
  }

  lemma {:induction false} ColonAfter(a: string, b: string)
    requires ColonAt(a) == |a|
    ensures ColonAt(a + ":" + b) == |a|
  {
    var s := a + ":" + b;
    if a == "" {
      assert s[0] == ':';
    } else {
      ColonAfter(a[1..], b);
      assert s[1..] == a[1..] + ":" + b;
    }
  }

  lemma ParseLineOf(p: Packet, f: NamedValue)
    requires Sized(p) && PlainName(f.0)
    ensures ParseLine(p, LineOf(f)) == Store(p, FieldOf(f.0), Trim(f.1))
  {
    var line, n := LineOf(f), |f.0|;
    PlainNameTrimmed(f.0);
    ColonAfter(f.0, f.1);
    assert line[..n] == f.0 && line[n + 1..] == f.1;
    OverlayNothing(p);
  }

  /** A value may stand between blanks: on a line with a space, or any control character, before or after it, the value
      alone is stored. */
  lemma SpacedValue(packet: Packet, n: string, p: string, v: string, q: string)
    requires Sized(packet) && PlainName(n) && v != ""
    requires forall c :: c in p || c in q ==> c == ' ' || 9 <= c as int <= 13 || (c as int) < 32 || c as int > 126
    requires '!' <= v[0] <= '~' && '!' <= v[|v| - 1] <= '~'
    ensures ParseLine(packet, n + ":" + p + v + q) == Store(packet, FieldOf(n), v)
  {
    TrimOuter(p, v, q);
    ParseLineOf(packet, (n, p + v + q));
    assert n + ":" + p + v + q == LineOf((n, p + v + q));
  }

  /** So a packet with one such line is read as that value. */
  lemma SpacedPacket(n: string, p: string, v: string, q: string)
    requires PlainName(n) && v != ""
    requires forall c :: c in p || c in q ==> c == ' ' || 9 <= c as int <= 13 || (c as int) < 32 || c as int > 126
    requires '!' <= v[0] <= '~' && '!' <= v[|v| - 1] <= '~'
    requires NUL !in p + v + q && !HasCrLf(p + v + q)
    ensures Parse(HEADER_NOTIFY + n + ":" + p + v + q + "\r\n") == Accepted(Store(Begin("NOTIFY"), FieldOf(n), v))
  {
    var f := (n, p + v + q);
    var line := LineOf(f);
    assert line == n + ":" + p + v + q;
    CleanLine(f);
    OneLine(line);
    SpacedValue(Begin(NOTIFY), n, p, v, q);
    assert HEADER_NOTIFY + n + ":" + p + v + q + "\r\n" == HEADER_NOTIFY + (line + CRLF);
  }

  /** A NOTIFY of one line. */
  lemma OneLine(line: string)
    requires line != "" && !HasCrLf(line) && NUL !in line
    ensures Parse(HEADER_NOTIFY + (line + CRLF)) == Accepted(ParseLine(Begin(NOTIFY), line))
  {
    var rest := line + CRLF;
    var data := HEADER_NOTIFY + rest;
    LineThenRest(line, "");
    LinesEnd("");
    assert rest + "" == rest;
    assert data[|HEADER_NOTIFY|..] == rest;
    HeaderRead(rest);
    ParseFrom(data, NOTIFY, |HEADER_NOTIFY|);
    FoldOne(Begin(NOTIFY), line);
  }

  lemma HeaderRead(rest: string)
    requires rest != ""
    ensures MethodOf(HEADER_NOTIFY + rest) == (NOTIFY, |HEADER_NOTIFY|)
    ensures NUL !in HEADER_NOTIFY
  {
    assert (HEADER_NOTIFY + rest)[..|HEADER_NOTIFY|] == HEADER_NOTIFY;
    assert HEADER_NOTIFY[0] == 'N' && HEADER_MSEARCH[0] == 'M';
  }

  lemma FoldOne(p: Packet, line: string)
    requires Sized(p)
    ensures FoldLines(p, [line]) == ParseLine(p, line)
  {
    assert [line][1..] == [];
  }

  lemma OverlayNothing(p: Packet)
    requires Sized(p)
    ensures Overlay(p.st, "") == p.st && Overlay(p.usn, "") == p.usn && Overlay(p.location, "") == p.location
    ensures Overlay(p.smId, "") == p.smId && Overlay(p.deviceType, "") == p.deviceType
  {}

  lemma {:induction false} ParseLinesOf(p: Packet, fs: seq<NamedValue>)
    requires Sized(p) && forall i :: 0 <= i < |fs| ==> PlainName(fs[i].0)
    ensures FoldLines(p, LinesOf(fs)) == StoreAll(p, Tags(fs))
    decreases |fs|
  {
    if fs != [] {
      ParseLineOf(p, fs[0]);
      ParseLinesOf(ParseLine(p, LineOf(fs[0])), fs[1..]);
      assert LinesOf(fs)[1..] == LinesOf(fs[1..]);
      assert Tags(fs)[1..] == Tags(fs[1..]);
    }
  }

  function Slot(p: Packet, f: Field): string {
    match f
    case St => p.st
    case Usn => p.usn
    case Location => p.location
    case SmId => p.smId
    case DevType => p.deviceType
    case Other => p.kind
  }

  lemma {:induction false} FieldAbsent(p: Packet, ts: seq<(Field, string)>, f: Field)
    requires Sized(p) && forall i :: 0 <= i < |ts| ==> ts[i].0 != f || f == Other
    ensures Slot(StoreAll(p, ts), f) == Slot(p, f)
    decreases |ts|
  {
    if ts != [] {
      FieldAbsent(Store(p, ts[0].0, ts[0].1), ts[1..], f);
    }
  }

  /** Wherever in the packet a field stands, if it stands there once it is what the packet ends up with. */
  lemma {:induction false} FieldOnce(p: Packet, ts: seq<(Field, string)>, f: Field, k: nat)
    requires Sized(p) && f != Other && k < |ts| && ts[k].0 == f
    requires forall i :: 0 <= i < |ts| && i != k ==> ts[i].0 != f
    ensures Slot(StoreAll(p, ts), f) == Overlay(Slot(p, f), ts[k].1)
    decreases |ts|
  {
    var q := Store(p, ts[0].0, ts[0].1);
    if k == 0 {
      FieldAbsent(q, ts[1..], f);
    } else {
      FieldOnce(q, ts[1..], f, k - 1);
    }
  }

  /** A zeroed buffer holds the value copied into it, cut to leave the final NUL. */
  lemma CopiedString(size: nat, v: string)
    requires size > 0 && NUL !in v
    ensures CStr(Overlay(Zeros(size), v)) == Cut(v, size)
  {
    var b, c := Overlay(Zeros(size), v), Cut(v, size);
    assert forall i :: 0 <= i < |c| ==> b[i] == c[i] && c[i] == v[i] && v[i] in v;
    assert b[|c|] == NUL;
    CStrAt(b, |c|);
    assert b[..|c|] == c;
  }

  lemma {:induction false} CStrAt(b: string, n: nat)
    requires n < |b| && b[n] == NUL && forall i :: 0 <= i < n ==> b[i] != NUL
    ensures CStr(b) == b[..n]
  {
    if n > 0 {
      CStrAt(b[1..], n - 1);
    }
  }

  // ----- Printing a whole packet and reading it back -----

  predicate CleanField(f: NamedValue) {
    PlainName(f.0) && NUL !in f.1 && !HasCrLf(f.1)
  }

  predicate CleanFields(fs: seq<NamedValue>) {
    forall f :: f in fs ==> CleanField(f)
  }

  lemma CleanLine(f: NamedValue)
    requires CleanField(f)
    ensures LineOf(f) != "" && !HasCrLf(LineOf(f)) && NUL !in LineOf(f)
  {
    var line, n := LineOf(f), |f.0|;
    forall k | 0 < k < |line| ensures !CrLfAt(line, k) {
      if k - 1 < n {
        assert line[k - 1] == f.0[k - 1] && f.0[k - 1] in f.0;
      } else if k - 1 > n {
        assert !CrLfAt(f.1, k - n - 1);
        assert line[k - 1] == f.1[k - n - 2] && line[k] == f.1[k - n - 1];
      }
    }
  }

  lemma {:induction false} CleanText(ls: seq<string>)
    requires forall i :: 0 <= i < |ls| ==> NUL !in ls[i]
    ensures NUL !in JoinLines(ls)
  {
    if ls != [] {
      CleanText(ls[1..]);
    }
  }

  lemma LinesOfPrinted(header: string, fs: seq<NamedValue>)
    requires CleanFields(fs)
    ensures PacketText(header, fs)[|header|..] == JoinLines(LinesOf(fs)) + CRLF
    ensures Lines(PacketText(header, fs)[|header|..]) == LinesOf(fs)
    ensures NUL !in header ==> NUL !in PacketText(header, fs)
  {
    var ls := LinesOf(fs);
    forall i | 0 <= i < |fs| ensures ls[i] != "" && !HasCrLf(ls[i]) && NUL !in ls[i] {
      assert fs[i] in fs;
      CleanLine(fs[i]);
    }
    CleanText(ls);
    assert PacketText(header, fs)[|header|..] == JoinLines(ls) + CRLF;
    LinesOfJoin(ls);
  }

  /** The parser undoes the printer, whatever the fields: every line comes back and is stored under its own name. */
  lemma ParsePrinted(text: string, header: string, kind: string, fs: seq<NamedValue>)
    requires text == PacketText(header, fs)
    requires MethodOf(text) == (kind, |header|) && |header| > 0 && NUL !in header
    requires CleanFields(fs)
    ensures Parse(text) == Accepted(StoreAll(Begin(kind), Tags(fs)))
  {
    LinesOfPrinted(header, fs);
    ParseFrom(text, kind, |header|);
    assert forall i :: 0 <= i < |fs| ==> fs[i] in fs;
    ParseLinesOf(Begin(kind), fs);
  }

  lemma ParseFrom(data: string, kind: string, n: nat)
    requires MethodOf(data) == (kind, n) && 0 < n <= |data| && NUL !in data
    ensures Parse(data) == Accepted(FoldLines(Begin(kind), Lines(data[n..])))
  {}

  /** Each of the five fields the packet keeps stands at its own place, and no other line names any of them. */
  predicate Places(ts: seq<(Field, string)>, st: nat, usn: nat, loc: nat, sm: nat, dev: nat) {
    && st < |ts| && usn < |ts| && loc < |ts| && sm < |ts| && dev < |ts|
    && ts[st].0 == St && ts[usn].0 == Usn && ts[loc].0 == Location && ts[sm].0 == SmId && ts[dev].0 == DevType
    && forall i :: 0 <= i < |ts| && i != st && i != usn && i != loc && i != sm && i != dev ==> ts[i].0 == Other
  }

  function SizeOf(f: Field): nat {
    if f == Location then LOCATION_LEN else FIELD_LEN
  }

  lemma FieldSeen(p: Packet, ts: seq<(Field, string)>, f: Field, k: nat)
    requires Sized(p) && f != Other && Slot(p, f) == Zeros(SizeOf(f))
    requires k < |ts| && ts[k].0 == f && NUL !in ts[k].1
    requires forall i :: 0 <= i < |ts| && i != k ==> ts[i].0 != f
    ensures CStr(Slot(StoreAll(p, ts), f)) == Cut(ts[k].1, SizeOf(f))
  {
    assert Slot(StoreAll(p, ts), f) == Overlay(Zeros(SizeOf(f)), ts[k].1) by {
      FieldOnce(p, ts, f, k);
    }
    CopiedString(SizeOf(f), ts[k].1);
  }

  /** The receiver's view of a printed packet, from where its five fields stand. */
  lemma ViewOfPrinted(p: Packet, kind: string, ts: seq<(Field, string)>, st: nat, usn: nat, loc: nat, sm: nat, dev: nat)
    requires p == Begin(kind) && NUL !in kind && |kind| < FIELD_LEN
    requires Places(ts, st, usn, loc, sm, dev)
    requires NUL !in ts[st].1 && NUL !in ts[usn].1 && NUL !in ts[loc].1 && NUL !in ts[sm].1 && NUL !in ts[dev].1
    ensures View(StoreAll(p, ts))
         == Seen(kind, Cut(ts[st].1, FIELD_LEN), Cut(ts[usn].1, FIELD_LEN), Cut(ts[loc].1, LOCATION_LEN),
                 Cut(ts[sm].1, FIELD_LEN), Cut(ts[dev].1, FIELD_LEN))
  {
    FieldAbsent(p, ts, Other);
    CopiedString(FIELD_LEN, kind);
    FieldSeen(p, ts, St, st);
    FieldSeen(p, ts, Usn, usn);
    FieldSeen(p, ts, Location, loc);
    FieldSeen(p, ts, SmId, sm);
    FieldSeen(p, ts, DevType, dev);
  }

  lemma OtherName(a: string, i: nat)
    requires i < |a| && (|a| != 2 || ToLower(a[1]) != 't') && |a| != 5
    requires |a| == 3 ==> ToLower(a[i]) != "usn"[i]
    requires |a| == 8 ==> ToLower(a[i]) != "location"[i] && ToLower(a[i]) != "dev_type"[i]
    ensures FieldOf(a) == Other
  {
    assert |a| == 2 ==> !SameName(a, "st") && !SameName(a, "nt") by {
      assert "st"[1] == 't' && "nt"[1] == 't';
    }
  }

  lemma FieldNames()
    ensures FieldOf("ST") == FieldOf("NT") == St
    ensures FieldOf("USN") == Usn
    ensures FieldOf("LOCATION") == Location
    ensures FieldOf("SM_ID") == SmId
    ensures FieldOf("DEV_TYPE") == DevType
  {
    assert SameName("ST", "st") && SameName("NT", "nt") && ToLower("NT"[0]) != "st"[0];
    assert SameName("USN", "usn");
    assert SameName("LOCATION", "location");
    assert SameName("SM_ID", "sm_id");
    assert ToLower("DEV_TYPE"[0]) != ToLower("location"[0]);
    assert SameName("DEV_TYPE", "dev_type");
  }

  lemma HeadNames()
    ensures FieldOf("HOST") == FieldOf("CACHE-CONTROL") == FieldOf("SERVER") == Other
  {
    OtherName("HOST", 0);
    OtherName("CACHE-CONTROL", 0);
    OtherName("SERVER", 0);
  }

  lemma ResponseOthers()
    ensures FieldOf("CACHE-CONTROL") == FieldOf("DATE") == FieldOf("EXT") == Other
  {
    OtherName("CACHE-CONTROL", 0);
    OtherName("DATE", 0);
    OtherName("EXT", 0);
  }

  lemma MsearchOthers()
    ensures FieldOf("HOST") == FieldOf("MAN") == FieldOf("MX") == FieldOf("USER-AGENT") == Other
  {
    OtherName("HOST", 0);
    OtherName("MAN", 0);
    OtherName("MX", 0);
    OtherName("USER-AGENT", 0);
  }

  lemma LocationName()
    ensures FieldOf("LOCATION") == Location
  {
    FieldNames();
  }

  lemma NotifyFront(h: Header, ip: string, port: nat)
    ensures var ts := Tags(NotifyFields(h, ip, port));
      ts[0].0 == Other && ts[1].0 == Other && ts[2].0 == Location && ts[3].0 == Other
  {
    HeadNames();
    LocationName();
  }

  lemma NotifyBack(h: Header, ip: string, port: nat)
    ensures var ts := Tags(NotifyFields(h, ip, port));
      ts[4].0 == St && ts[5].0 == Other && ts[6].0 == Usn && ts[7].0 == SmId && ts[8].0 == DevType
  {
    FieldNames();
    OtherName("NTS", 0);
  }

  lemma NotifyPlaces(ts: seq<(Field, string)>)
    requires |ts| == 9
    requires ts[0].0 == Other && ts[1].0 == Other && ts[2].0 == Location && ts[3].0 == Other
    requires ts[4].0 == St && ts[5].0 == Other && ts[6].0 == Usn && ts[7].0 == SmId && ts[8].0 == DevType
    ensures Places(ts, 4, 6, 2, 7, 8)
  {}

  lemma NotifyNames(h: Header, ip: string, port: nat)
    ensures Places(Tags(NotifyFields(h, ip, port)), 4, 6, 2, 7, 8)
  {
    NotifyFront(h, ip, port);
    NotifyBack(h, ip, port);
    NotifyPlaces(Tags(NotifyFields(h, ip, port)));
  }

  lemma ResponseFront(h: Header, ip: string)
    ensures var ts := Tags(ResponseFields(h, ip)); ts[0].0 == Other && ts[1].0 == Other && ts[2].0 == Other
  {
    ResponseOthers();
  }

  lemma ResponseMiddle(h: Header, ip: string)
    ensures var ts := Tags(ResponseFields(h, ip)); ts[3].0 == Location && ts[4].0 == Other
  {
    LocationName();
    HeadNames();
  }

  lemma ResponseBack(h: Header, ip: string)
    ensures var ts := Tags(ResponseFields(h, ip));
      ts[5].0 == St && ts[6].0 == Usn && ts[7].0 == SmId && ts[8].0 == DevType
  {
    FieldNames();
  }

  lemma ResponsePlaces(ts: seq<(Field, string)>)
    requires |ts| == 9
    requires ts[0].0 == Other && ts[1].0 == Other && ts[2].0 == Other && ts[3].0 == Location
    requires ts[4].0 == Other && ts[5].0 == St && ts[6].0 == Usn && ts[7].0 == SmId && ts[8].0 == DevType
    ensures Places(ts, 5, 6, 3, 7, 8)
  {}

  lemma ResponseNames(h: Header, ip: string)
    ensures Places(Tags(ResponseFields(h, ip)), 5, 6, 3, 7, 8)
  {
    ResponseFront(h, ip);
    ResponseMiddle(h, ip);
    ResponseBack(h, ip);
    ResponsePlaces(Tags(ResponseFields(h, ip)));
  }

  /** Nothing a node can put in its header overflows the send buffer: snprintf never cuts a packet short. */
  lemma PacketsFit(h: Header, ip: string, port: nat)
    requires ValidHeader(h) && Fits(ip, 16) && port <= 65535
    ensures Msearch(h, port) == PacketText(HEADER_MSEARCH, MsearchFields(h, port))
    ensures Notify(h, ip, port) == PacketText(HEADER_NOTIFY, NotifyFields(h, ip, port))
    ensures Response(h, ip) == PacketText(HEADER_RESPONSE, ResponseFields(h, ip))
  {
    assert |Decimal.ToString(port)| <= 5 by { assert Decimal.Power10(5) == 100000; Decimal.ToStringLength(port, 5); }
    JoinedLength(LinesOf(MsearchFields(h, port)), 140, 0, 0);
    JoinedLength(LinesOf(NotifyFields(h, ip, port)), 140, 260, 2);
    JoinedLength(LinesOf(ResponseFields(h, ip)), 140, 260, 3);
  }

  /** Every line is within the bound, but the one at k, the location, may exceed it by extra. */
  lemma {:induction false} JoinedLength(ls: seq<string>, bound: nat, extra: nat, k: int)
    requires forall i :: 0 <= i < |ls| ==> |ls[i]| + 2 <= if i == k then bound + extra else bound
    ensures |JoinLines(ls)| <= bound * |ls| + if k >= 0 then extra else 0
  {
    if ls != [] {
      JoinedLength(ls[1..], bound, extra, k - 1);
      assert bound * |ls| == bound + bound * |ls[1..]|;
    }
  }

  // ----- The round trips -----

  lemma PlainNames()
    ensures PlainName("HOST") && PlainName("MAN") && PlainName("MX") && PlainName("ST") && PlainName("USER-AGENT")
    ensures PlainName("DATE") && PlainName("EXT") && PlainName("NT") && PlainName("NTS")
  {}

  lemma PlainLongNames()
    ensures PlainName("CACHE-CONTROL") && PlainName("LOCATION") && PlainName("SERVER")
    ensures PlainName("USN") && PlainName("SM_ID") && PlainName("DEV_TYPE")
  {}

  /** The fixed values and the port are printable text. */
  lemma PlainValues(port: nat)
    ensures Printable("\"ssdp:discover\"") && Printable("1") && Printable("OS/version product/version")
    ensures Printable("max-age=120") && Printable("ssdp:alive") && Printable("")
    ensures Printable(ADDR_MULTICAST + ":" + Decimal.ToString(port))
  {}

  predicate Printable(s: string) {
    forall c :: c in s ==> IsPrint(c)
  }

  lemma PrintableIsClean(s: string)
    requires Printable(s)
    ensures NUL !in s && !HasCrLf(s)
  {
    assert !IsPrint('\r');
  }

  lemma CleanPackets(h: Header, ip: string, port: nat)
    requires ValidHeader(h) && Fits(ip, 16) && OneLineEach(h, ip)
    ensures CleanFields(MsearchFields(h, port)) && CleanFields(NotifyFields(h, ip, port))
    ensures CleanFields(ResponseFields(h, ip))
  {
    PlainNames();
    PlainLongNames();
    PlainValues(port);
    PrintableIsClean("\"ssdp:discover\"");
    PrintableIsClean("1");
    PrintableIsClean("OS/version product/version");
    PrintableIsClean("max-age=120");
    PrintableIsClean("ssdp:alive");
    PrintableIsClean("");
    PrintableIsClean(ADDR_MULTICAST + ":" + Decimal.ToString(port));
  }

  lemma TagsClean(fs: seq<NamedValue>)
    requires CleanFields(fs)
    ensures forall i :: 0 <= i < |fs| ==> Tags(fs)[i].1 == Trim(fs[i].1) && NUL !in Tags(fs)[i].1
  {
    forall i | 0 <= i < |fs| ensures NUL !in Tags(fs)[i].1 {
      assert fs[i] in fs;
      TrimFixed(fs[i].1);
    }
  }

  lemma Headers(fs: seq<NamedValue>)
    ensures MethodOf(PacketText(HEADER_MSEARCH, fs)) == (MSEARCH, |HEADER_MSEARCH|)
    ensures MethodOf(PacketText(HEADER_NOTIFY, fs)) == (NOTIFY, |HEADER_NOTIFY|)
    ensures MethodOf(PacketText(HEADER_RESPONSE, fs)) == (RESPONSE, |HEADER_RESPONSE|)
  {
    assert PacketText(HEADER_MSEARCH, fs)[..|HEADER_MSEARCH|] == HEADER_MSEARCH;
    assert PacketText(HEADER_NOTIFY, fs)[..|HEADER_NOTIFY|] == HEADER_NOTIFY;
    assert PacketText(HEADER_RESPONSE, fs)[..|HEADER_RESPONSE|] == HEADER_RESPONSE;
    assert HEADER_NOTIFY[0] == 'N' && HEADER_RESPONSE[0] == 'H' && HEADER_MSEARCH[0] == 'M';
  }

  lemma ParseNotify(h: Header, ip: string, port: nat)
    requires ValidHeader(h) && Fits(ip, 16) && port <= 65535 && OneLineEach(h, ip)
    ensures Parse(Notify(h, ip, port)) == Accepted(StoreAll(Begin(NOTIFY), Tags(NotifyFields(h, ip, port))))
  {
    PacketsFit(h, ip, port);
    CleanPackets(h, ip, port);
    Headers(NotifyFields(h, ip, port));
    ParsePrinted(Notify(h, ip, port), HEADER_NOTIFY, NOTIFY, NotifyFields(h, ip, port));
  }

  /** A printed packet with the five fields of h at the given places shows exactly what h announces. */
  lemma SeenPrinted(kind: string, h: Header, ip: string, fs: seq<NamedValue>,
                    st: nat, usn: nat, loc: nat, sm: nat, dev: nat)
    requires ValidHeader(h) && NUL !in kind && |kind| < FIELD_LEN
    requires CleanFields(fs) && Places(Tags(fs), st, usn, loc, sm, dev)
    requires fs[st].1 == h.searchTarget && fs[usn].1 == h.usn && fs[loc].1 == LocationText(h, ip)
    requires fs[sm].1 == h.smId && fs[dev].1 == h.deviceType
    ensures View(StoreAll(Begin(kind), Tags(fs))) == Announced(kind, h, ip)
  {
    TagsClean(fs);
    ViewOfPrinted(Begin(kind), kind, Tags(fs), st, usn, loc, sm, dev);
    TrimFixed(h.searchTarget);
    TrimFixed(h.usn);
    TrimFixed(h.smId);
    TrimFixed(h.deviceType);
  }

  /** What a packet carries, field by field; the location is cut to its 255 bytes. */
  predicate Carries(p: Packet, kind: string, h: Header, location: string) {
    && CStr(p.kind) == kind && CStr(p.st) == Trim(h.searchTarget) && CStr(p.usn) == Trim(h.usn)
    && CStr(p.smId) == Trim(h.smId) && CStr(p.deviceType) == Trim(h.deviceType)
    && CStr(p.location) == if |Trim(location)| <= 255 then Trim(location) else Trim(location)[..255]
  }

  /** The announced location is made with the domain, and with the interface's address only where there is none. */
  lemma AnnouncedCarries(p: Packet, kind: string, h: Header, ip: string)
    requires View(p) == Announced(kind, h, ip)
    ensures h.domain != "" ==> Carries(p, kind, h, h.prefix + h.domain + h.suffix)
    ensures h.domain == "" ==> Carries(p, kind, h, h.prefix + ip + h.suffix)
  {}

  /** A NOTIFY comes back as the sender's fields with their blank ends gone, the location cut to its 255 bytes. */
  lemma NotifyRoundTrip(h: Header, ip: string, port: nat)
    requires ValidHeader(h) && Fits(ip, 16) && port <= 65535 && OneLineEach(h, ip)
    ensures Parse(Notify(h, ip, port)).Accepted?
    ensures View(Parse(Notify(h, ip, port)).packet) == Announced(NOTIFY, h, ip)
    ensures h.domain != "" ==> Carries(Parse(Notify(h, ip, port)).packet, "NOTIFY", h, h.prefix + h.domain + h.suffix)
    ensures h.domain == "" ==> Carries(Parse(Notify(h, ip, port)).packet, "NOTIFY", h, h.prefix + ip + h.suffix)
  {
    NotifySeen(h, ip, port);
    AnnouncedCarries(Parse(Notify(h, ip, port)).packet, NOTIFY, h, ip);
  }

  lemma NotifySeen(h: Header, ip: string, port: nat)
    requires ValidHeader(h) && Fits(ip, 16) && port <= 65535 && OneLineEach(h, ip)
    ensures Parse(Notify(h, ip, port)).Accepted?
    ensures View(Parse(Notify(h, ip, port)).packet) == Announced(NOTIFY, h, ip)
  {
    ParseNotify(h, ip, port);
    CleanPackets(h, ip, port);
    NotifyNames(h, ip, port);
    SeenPrinted(NOTIFY, h, ip, NotifyFields(h, ip, port), 4, 6, 2, 7, 8);
  }

  lemma ParseResponse(h: Header, ip: string)
    requires ValidHeader(h) && Fits(ip, 16) && OneLineEach(h, ip)
    ensures Parse(Response(h, ip)) == Accepted(StoreAll(Begin(RESPONSE), Tags(ResponseFields(h, ip))))
  {
    PacketsFit(h, ip, 0);
    CleanPackets(h, ip, 0);
    Headers(ResponseFields(h, ip));
    ParsePrinted(Response(h, ip), HEADER_RESPONSE, RESPONSE, ResponseFields(h, ip));
  }

  /** A search RESPONSE comes back the same way. */
  lemma ResponseRoundTrip(h: Header, ip: string)
    requires ValidHeader(h) && Fits(ip, 16) && OneLineEach(h, ip)
    ensures Parse(Response(h, ip)).Accepted?
    ensures View(Parse(Response(h, ip)).packet) == Announced(RESPONSE, h, ip)
    ensures h.domain != "" ==> Carries(Parse(Response(h, ip)).packet, "RESPONSE", h, h.prefix + h.domain + h.suffix)
    ensures h.domain == "" ==> Carries(Parse(Response(h, ip)).packet, "RESPONSE", h, h.prefix + ip + h.suffix)
  {
    ResponseSeen(h, ip);
    AnnouncedCarries(Parse(Response(h, ip)).packet, RESPONSE, h, ip);
  }

  lemma ResponseSeen(h: Header, ip: string)
    requires ValidHeader(h) && Fits(ip, 16) && OneLineEach(h, ip)
    ensures Parse(Response(h, ip)).Accepted?
    ensures View(Parse(Response(h, ip)).packet) == Announced(RESPONSE, h, ip)
  {
    ParseResponse(h, ip);
    CleanPackets(h, ip, 0);
    ResponseNames(h, ip);
    SeenPrinted(RESPONSE, h, ip, ResponseFields(h, ip), 5, 6, 3, 7, 8);
  }

  lemma MsearchNames(h: Header, port: nat)
    ensures Tags(MsearchFields(h, port))[3] == (St, Trim(h.searchTarget))
    ensures forall i :: 0 <= i < 5 && i != 3 ==> Tags(MsearchFields(h, port))[i].0 == Other
  {
    FieldNames();
    MsearchOthers();
  }

  /** An M-SEARCH carries its search target across. */
  lemma MsearchRoundTrip(h: Header, port: nat)
    requires ValidHeader(h) && port <= 65535 && !HasCrLf(h.searchTarget)
    ensures Parse(Msearch(h, port)).Accepted?
    ensures View(Parse(Msearch(h, port)).packet).kind == MSEARCH
    ensures View(Parse(Msearch(h, port)).packet).st == Trim(h.searchTarget)
    ensures CStr(Parse(Msearch(h, port)).packet.kind) == "M-SEARCH"
    ensures CStr(Parse(Msearch(h, port)).packet.st) == Trim(h.searchTarget)
  {
    var fs := MsearchFields(h, port);
    PacketsFit(h, "", port);
    CleanMsearch(h, port);
    Headers(fs);
    ParsePrinted(Msearch(h, port), HEADER_MSEARCH, MSEARCH, fs);
    MsearchNames(h, port);
    SeenMsearch(h, Tags(fs));
  }

  lemma SeenMsearch(h: Header, ts: seq<(Field, string)>)
    requires ValidHeader(h) && |ts| == 5 && ts[3] == (St, Trim(h.searchTarget))
    requires forall i :: 0 <= i < 5 && i != 3 ==> ts[i].0 == Other
    ensures CStr(StoreAll(Begin(MSEARCH), ts).kind) == MSEARCH
    ensures CStr(StoreAll(Begin(MSEARCH), ts).st) == Trim(h.searchTarget)
  {
    TrimFixed(h.searchTarget);
    FieldAbsent(Begin(MSEARCH), ts, Other);
    CopiedString(FIELD_LEN, MSEARCH);
    FieldSeen(Begin(MSEARCH), ts, St, 3);
  }

  lemma CleanMsearch(h: Header, port: nat)
    requires ValidHeader(h) && !HasCrLf(h.searchTarget)
    ensures CleanFields(MsearchFields(h, port))
  {
    CleanPackets(Header(h.searchTarget, "", "", "", "", "", ""), "", port);
  }

  /** For fields that are visible at both ends, and a location that fits, nothing at all is lost. */
  lemma FaithfulWhenTrimmed(kind: string, h: Header, ip: string)
    ensures (Announced(kind, h, ip)
             == Seen(kind, h.searchTarget, h.usn, LocationText(h, ip), h.smId, h.deviceType))
       <==> (&& Trimmed(h.searchTarget) && Trimmed(h.usn) && Trimmed(h.smId) && Trimmed(h.deviceType)
             && Trimmed(LocationText(h, ip)) && |LocationText(h, ip)| < LOCATION_LEN)
  {
    TrimFixed(h.searchTarget);
    TrimFixed(h.usn);
    TrimFixed(h.smId);
    TrimFixed(h.deviceType);
    TrimFixed(LocationText(h, ip));
  }

  // ----- The packets line by line -----

  /** The M-SEARCH line by line. */
  lemma MsearchText(h: Header, port: nat)
    requires ValidHeader(h) && port <= 65535
    ensures Msearch(h, port) == "M-SEARCH * HTTP/1.1\r\n" + JoinLines([
      "HOST" + ":" + ("239.255.255.250" + ":" + Decimal.ToString(port)),
      "MAN" + ":" + "\"ssdp:discover\"",
      "MX" + ":" + "1",
      "ST" + ":" + h.searchTarget,
      "USER-AGENT" + ":" + "OS/version product/version"]) + "\r\n"
  {
    PacketsFit(h, "", port);
    assert LinesOf(MsearchFields(h, port)) == [
      "HOST" + ":" + ("239.255.255.250" + ":" + Decimal.ToString(port)),
      "MAN" + ":" + "\"ssdp:discover\"",
      "MX" + ":" + "1",
      "ST" + ":" + h.searchTarget,
      "USER-AGENT" + ":" + "OS/version product/version"];
  }

  /** The NOTIFY line by line. */
  lemma NotifyText(h: Header, ip: string, port: nat)
    requires ValidHeader(h) && Fits(ip, 16) && port <= 65535
    ensures Notify(h, ip, port) == "NOTIFY * HTTP/1.1\r\n" + JoinLines([
      "HOST" + ":" + ("239.255.255.250" + ":" + Decimal.ToString(port)),
      "CACHE-CONTROL" + ":" + "max-age=120",
      "LOCATION" + ":" + (h.prefix + (if h.domain != "" then h.domain else ip) + h.suffix),
      "SERVER" + ":" + "OS/version product/version",
      "NT" + ":" + h.searchTarget,
      "NTS" + ":" + "ssdp:alive",
      "USN" + ":" + h.usn,
      "SM_ID" + ":" + h.smId,
      "DEV_TYPE" + ":" + h.deviceType]) + "\r\n"
  {
    PacketsFit(h, ip, port);
    assert LinesOf(NotifyFields(h, ip, port)) == [
      "HOST" + ":" + ("239.255.255.250" + ":" + Decimal.ToString(port)),
      "CACHE-CONTROL" + ":" + "max-age=120",
      "LOCATION" + ":" + (h.prefix + (if h.domain != "" then h.domain else ip) + h.suffix),
      "SERVER" + ":" + "OS/version product/version",
      "NT" + ":" + h.searchTarget,
      "NTS" + ":" + "ssdp:alive",
      "USN" + ":" + h.usn,
      "SM_ID" + ":" + h.smId,
      "DEV_TYPE" + ":" + h.deviceType];
  }

  /** The RESPONSE line by line. */
  lemma ResponseText(h: Header, ip: string)
    requires ValidHeader(h) && Fits(ip, 16)
    ensures Response(h, ip) == "HTTP/1.1 200 OK\r\n" + JoinLines([
      "CACHE-CONTROL" + ":" + "max-age=120",
      "DATE" + ":" + "",
      "EXT" + ":" + "",
      "LOCATION" + ":" + (h.prefix + (if h.domain != "" then h.domain else ip) + h.suffix),
      "SERVER" + ":" + "OS/version product/version",
      "ST" + ":" + h.searchTarget,
      "USN" + ":" + h.usn,
      "SM_ID" + ":" + h.smId,
      "DEV_TYPE" + ":" + h.deviceType]) + "\r\n"
  {
    PacketsFit(h, ip, 0);
    assert LinesOf(ResponseFields(h, ip)) == [
      "CACHE-CONTROL" + ":" + "max-age=120",
      "DATE" + ":" + "",
      "EXT" + ":" + "",
      "LOCATION" + ":" + (h.prefix + (if h.domain != "" then h.domain else ip) + h.suffix),
      "SERVER" + ":" + "OS/version product/version",
      "ST" + ":" + h.searchTarget,
      "USN" + ":" + h.usn,
      "SM_ID" + ":" + h.smId,
      "DEV_TYPE" + ":" + h.deviceType];
  }
}

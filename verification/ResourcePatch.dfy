/** PATCH of the system and chassis resources: each member given is assigned in place, the lamp being read first. */
module ResourcePatch {
  import opened Json

  datatype Led = LedOff | LedBlinking | LedLit

  function LedOf(s: string): Option<Led> {
    if s == "Off" then Some(LedOff) else if s == "Blinking" then Some(LedBlinking)
    else if s == "Lit" then Some(LedLit) else None
  }

  /** A request's lamp text, if there is one, names a state. */
  predicate LedFine(o: Option<string>) {
    o.Some? ==> LedOf(o.value).Some?
  }

  function LedAfter(o: Option<string>, led: Led): Led
    requires LedFine(o)
  {
    if o.Some? then LedOf(o.value).value else led
  }

  /** The later of two optional members. */
  function Later<T>(first: Option<T>, second: Option<T>): Option<T> {
    if second.Some? then second else first
  }

  // ----- Values and requests -----

  datatype Boot = Boot(enabled: string, target: string, mode: string, uefi: string)
  datatype BootRequest = BootRequest(enabled: Option<string>, target: Option<string>, mode: Option<string>,
                                     uefi: Option<string>)

  datatype SystemState = SystemState(led: Led, description: string, hostname: string, assetTag: string, boot: Boot)
  datatype SystemRequest = SystemRequest(led: Option<string>, description: Option<string>, hostname: Option<string>,
                                         assetTag: Option<string>, boot: Option<BootRequest>)

  datatype Postal = Postal(country: string, territory: string, city: string, street: string, house: string,
                           name: string, code: string)
  datatype PostalRequest = PostalRequest(country: Option<string>, territory: Option<string>, city: Option<string>,
                                         street: Option<string>, house: Option<string>, name: Option<string>,
                                         code: Option<string>)

  datatype Placement = Placement(row: string, rack: string, units: string, offset: nat)
  datatype PlacementRequest = PlacementRequest(row: Option<string>, rack: Option<string>, units: Option<string>,
                                               offset: Option<int32>)

  datatype LocationRequest = LocationRequest(postal: Option<PostalRequest>, placement: Option<PlacementRequest>)

  datatype ChassisState = ChassisState(led: Led, assetTag: string, postal: Postal, placement: Placement)
  datatype ChassisRequest = ChassisRequest(led: Option<string>, assetTag: Option<string>,
                                           location: Option<LocationRequest>)

  const NO_BOOT := BootRequest(None, None, None, None)
  const NO_POSTAL := PostalRequest(None, None, None, None, None, None, None)
  const NO_PLACEMENT := PlacementRequest(None, None, None, None)
  const NO_LOCATION := LocationRequest(None, None)

  // ----- What a request leads to -----

  function BootAfter(b: Boot, r: BootRequest): Boot {
    Boot(Or(r.enabled, b.enabled), Or(r.target, b.target), Or(r.mode, b.mode), Or(r.uefi, b.uefi))
  }

  function SystemAfter(s: SystemState, r: SystemRequest): SystemState
    requires LedFine(r.led)
  {
    SystemState(LedAfter(r.led, s.led), Or(r.description, s.description), Or(r.hostname, s.hostname),
                Or(r.assetTag, s.assetTag), BootAfter(s.boot, Or(r.boot, NO_BOOT)))
  }

  predicate SystemGiven(r: SystemRequest) {
    r.led.Some? || r.description.Some? || r.hostname.Some? || r.assetTag.Some? || Or(r.boot, NO_BOOT) != NO_BOOT
  }

  function PostalAfter(p: Postal, r: PostalRequest): Postal {
    Postal(Or(r.country, p.country), Or(r.territory, p.territory), Or(r.city, p.city), Or(r.street, p.street),
           Or(r.house, p.house), Or(r.name, p.name), Or(r.code, p.code))
  }

  function PlacementAfter(p: Placement, r: PlacementRequest): Placement {
    Placement(Or(r.row, p.row), Or(r.rack, p.rack), Or(r.units, p.units),
              if r.offset.Some? then ToUnsigned(r.offset.value) else p.offset)
  }

  function PostalOf(r: ChassisRequest): PostalRequest {
    Or(Or(r.location, NO_LOCATION).postal, NO_POSTAL)
  }

  function PlacementOf(r: ChassisRequest): PlacementRequest {
    Or(Or(r.location, NO_LOCATION).placement, NO_PLACEMENT)
  }

  function ChassisAfter(s: ChassisState, r: ChassisRequest): ChassisState
    requires LedFine(r.led)
  {
    ChassisState(LedAfter(r.led, s.led), Or(r.assetTag, s.assetTag), PostalAfter(s.postal, PostalOf(r)),
                 PlacementAfter(s.placement, PlacementOf(r)))
  }

  predicate ChassisGiven(r: ChassisRequest) {
    r.led.Some? || r.assetTag.Some? || PostalOf(r) != NO_POSTAL || PlacementOf(r) != NO_PLACEMENT
  }

  // ----- Member by member -----

  function Given(o: Option<string>, current: string): string {
    match o case Some(v) => v case None => current
  }

  /** Every member of the system ends as given, or as it was. */
  lemma SystemMembers(s: SystemState, r: SystemRequest)
    requires LedFine(r.led)
    ensures var t := SystemAfter(s, r);
      && (r.led.None? ==> t.led == s.led) && (r.led == Some("Off") ==> t.led == LedOff)
      && (r.led == Some("Blinking") ==> t.led == LedBlinking) && (r.led == Some("Lit") ==> t.led == LedLit)
      && t.description == Given(r.description, s.description) && t.hostname == Given(r.hostname, s.hostname)
      && t.assetTag == Given(r.assetTag, s.assetTag)
      && (r.boot.None? ==> t.boot == s.boot)
      && (r.boot.Some? ==>
           var b := r.boot.value;
           && t.boot.enabled == Given(b.enabled, s.boot.enabled) && t.boot.target == Given(b.target, s.boot.target)
           && t.boot.mode == Given(b.mode, s.boot.mode) && t.boot.uefi == Given(b.uefi, s.boot.uefi))
  {}

  lemma LampTexts(o: Option<string>)
    ensures LedFine(o) <==> o in {None, Some("Off"), Some("Blinking"), Some("Lit")}
  {}

  /** Every member of the chassis ends as given, or as it was. */
  lemma ChassisMembers(s: ChassisState, r: ChassisRequest)
    requires LedFine(r.led)
    ensures var t := ChassisAfter(s, r);
      && (r.led.None? ==> t.led == s.led) && (r.led == Some("Off") ==> t.led == LedOff)
      && (r.led == Some("Blinking") ==> t.led == LedBlinking) && (r.led == Some("Lit") ==> t.led == LedLit)
      && t.assetTag == Given(r.assetTag, s.assetTag)
      && (r.location.None? || r.location.value.postal.None? ==> t.postal == s.postal)
      && (r.location.None? || r.location.value.placement.None? ==> t.placement == s.placement)
  {}

  lemma PostalMembers(s: ChassisState, r: ChassisRequest)
    requires LedFine(r.led) && r.location.Some? && r.location.value.postal.Some?
    ensures var p, q, t := s.postal, r.location.value.postal.value, ChassisAfter(s, r).postal;
      && t.country == Given(q.country, p.country) && t.territory == Given(q.territory, p.territory)
      && t.city == Given(q.city, p.city) && t.street == Given(q.street, p.street)
      && t.house == Given(q.house, p.house) && t.name == Given(q.name, p.name) && t.code == Given(q.code, p.code)
  {}

  lemma PlacementMembers(s: ChassisState, r: ChassisRequest)
    requires LedFine(r.led) && r.location.Some? && r.location.value.placement.Some?
    ensures var p, q, t := s.placement, r.location.value.placement.value, ChassisAfter(s, r).placement;
      && t.row == Given(q.row, p.row) && t.rack == Given(q.rack, p.rack) && t.units == Given(q.units, p.units)
      && t.offset == match q.offset case Some(v) => ToUnsigned(v) case None => p.offset
  {}

  // ----- Two requests in a row -----

  /** One request with the members of both, those of the second winning. */
  function BothBoot(p: Option<BootRequest>, q: Option<BootRequest>): Option<BootRequest> {
    var a, b := Or(p, NO_BOOT), Or(q, NO_BOOT);
    Some(BootRequest(Later(a.enabled, b.enabled), Later(a.target, b.target), Later(a.mode, b.mode),
                     Later(a.uefi, b.uefi)))
  }

  function BothSystem(p: SystemRequest, q: SystemRequest): SystemRequest {
    SystemRequest(Later(p.led, q.led), Later(p.description, q.description), Later(p.hostname, q.hostname),
                  Later(p.assetTag, q.assetTag), BothBoot(p.boot, q.boot))
  }

  lemma SystemPatchesCompose(s: SystemState, p: SystemRequest, q: SystemRequest)
    requires LedFine(p.led) && LedFine(q.led)
    ensures SystemAfter(SystemAfter(s, p), q) == SystemAfter(s, BothSystem(p, q))
  {}

  function BothChassis(p: ChassisRequest, q: ChassisRequest): ChassisRequest {
    var a, b, c, d := PostalOf(p), PostalOf(q), PlacementOf(p), PlacementOf(q);
    ChassisRequest(Later(p.led, q.led), Later(p.assetTag, q.assetTag), Some(LocationRequest(
      Some(PostalRequest(Later(a.country, b.country), Later(a.territory, b.territory), Later(a.city, b.city),
                         Later(a.street, b.street), Later(a.house, b.house), Later(a.name, b.name),
                         Later(a.code, b.code))),
      Some(PlacementRequest(Later(c.row, d.row), Later(c.rack, d.rack), Later(c.units, d.units),
                            Later(c.offset, d.offset))))))
  }

  lemma ChassisPatchesCompose(s: ChassisState, p: ChassisRequest, q: ChassisRequest)
    requires LedFine(p.led) && LedFine(q.led)
    ensures ChassisAfter(ChassisAfter(s, p), q) == ChassisAfter(s, BothChassis(p, q))
  {}

  // ----- The objects -----

  class Systems {
    var led: Led
    var description: string
    var hostname: string
    var assetTag: string
    var boot: Boot

    constructor (s: SystemState)
      ensures Abs() == s
    {
      led, description, hostname, assetTag, boot := s.led, s.description, s.hostname, s.assetTag, s.boot;
    }

    function Abs(): SystemState
      reads this
    {
      SystemState(led, description, hostname, assetTag, boot)
    }

    method PatchBoot(r: BootRequest) returns (any: bool)
      modifies this`boot
      ensures boot == BootAfter(old(boot), r) && (any <==> r != NO_BOOT)
    {
      any := false;
      if r.enabled.Some? {
        boot, any := boot.(enabled := r.enabled.value), true;
      }
      if r.target.Some? {
        boot, any := boot.(target := r.target.value), true;
      }
      if r.mode.Some? {
        boot, any := boot.(mode := r.mode.value), true;
      }
      if r.uefi.Some? {
        boot, any := boot.(uefi := r.uefi.value), true;
      }
    }

    /** patch_system: refused, and then without any effect, exactly for a bad lamp text or a request giving nothing. */
    method PatchSystem(r: SystemRequest) returns (result: bool)
      modifies this
      ensures result <==> LedFine(r.led) && SystemGiven(r)
      ensures Abs() == if result then SystemAfter(old(Abs()), r) else old(Abs())
    {
      result := false;
      if r.led.Some? {
        if LedOf(r.led.value).None? {
          return false;
        }
        led, result := LedOf(r.led.value).value, true;
      }
      if r.description.Some? {
        description, result := r.description.value, true;
      }
      if r.hostname.Some? {
        hostname, result := r.hostname.value, true;
      }
      if r.assetTag.Some? {
        assetTag, result := r.assetTag.value, true;
      }
      if r.boot.Some? {
        var any := PatchBoot(r.boot.value);
        result := result || any;
      }
    }
  }

  class Chassis {
    var led: Led
    var assetTag: string
    var postal: Postal
    var placement: Placement

    constructor (s: ChassisState)
      ensures Abs() == s
    {
      led, assetTag, postal, placement := s.led, s.assetTag, s.postal, s.placement;
    }

    function Abs(): ChassisState
      reads this
    {
      ChassisState(led, assetTag, postal, placement)
    }

    method PatchPostal(r: PostalRequest) returns (any: bool)
      modifies this`postal
      ensures postal == PostalAfter(old(postal), r) && (any <==> r != NO_POSTAL)
    {
      any := false;
      if r.country.Some? {
        postal, any := postal.(country := r.country.value), true;
      }
      if r.territory.Some? {
        postal, any := postal.(territory := r.territory.value), true;
      }
      if r.city.Some? {
        postal, any := postal.(city := r.city.value), true;
      }
      if r.street.Some? {
        postal, any := postal.(street := r.street.value), true;
      }
      if r.house.Some? {
        postal, any := postal.(house := r.house.value), true;
      }
      if r.name.Some? {
        postal, any := postal.(name := r.name.value), true;
      }
      if r.code.Some? {
        postal, any := postal.(code := r.code.value), true;
      }
    }

    method PatchPlacement(r: PlacementRequest) returns (any: bool)
      modifies this`placement
      ensures placement == PlacementAfter(old(placement), r) && (any <==> r != NO_PLACEMENT)
    {
      any := false;
      if r.row.Some? {
        placement, any := placement.(row := r.row.value), true;
      }
      if r.rack.Some? {
        placement, any := placement.(rack := r.rack.value), true;
      }
      if r.units.Some? {
        placement, any := placement.(units := r.units.value), true;
      }
      if r.offset.Some? {
        placement, any := placement.(offset := ToUnsigned(r.offset.value)), true;
      }
    }

    /** patch_chassis, likewise. */
    method PatchChassis(r: ChassisRequest) returns (result: bool)
      modifies this
      ensures result <==> LedFine(r.led) && ChassisGiven(r)
      ensures Abs() == if result then ChassisAfter(old(Abs()), r) else old(Abs())
    {
      result := false;
      if r.led.Some? {
        if LedOf(r.led.value).None? {
          return false;
        }
        led, result := LedOf(r.led.value).value, true;
      }
      if r.assetTag.Some? {
        assetTag, result := r.assetTag.value, true;
      }
      if r.location.Some? {
        if r.location.value.postal.Some? {
          var any := PatchPostal(r.location.value.postal.value);
          result := result || any;
        }
        if r.location.value.placement.Some? {
          var any := PatchPlacement(r.location.value.placement.value);
          result := result || any;
        }
      }
    }
  }
}

/** Reading Tetragon endpoints out of EndpointSlices, up to the stream cap. */
module EndpointDiscovery {
  import opened Options
  import opened Text
  import opened StreamManager

  datatype EndpointInfo = EndpointInfo(ready: Option<bool>, targetKind: Option<Option<string>>, addresses: seq<string>)

  datatype Slice = Slice(ports: seq<Option<int>>, endpoints: seq<EndpointInfo>)

  /** The canonical text of an IP literal, or nothing. */
  type IpReader = string -> Option<string>

  const POD: string := "Pod"

  /** Not marked unready, and if it has a target then a Pod. */
  predicate IsUsable(e: EndpointInfo) {
    e.ready != Some(false) && (e.targetKind.Some? ==> e.targetKind.value == Some(POD))
  }

  /** The first port that is given. */
  function FirstPort(ports: seq<Option<int>>): Option<int> {
    if ports == [] then None else if ports[0].Some? then ports[0] else FirstPort(ports[1..])
  }

  /** The slice's own port, cut to 16 bits, or the configured one. */
  function PortOf(slice: Slice, configured: nat): nat {
    match FirstPort(slice.ports) case Some(p) => p % 0x1_0000 case None => configured
  }

  function Key(ip: string, port: nat): string {
    ip + ":" + Decimal(port)
  }

  /** The keys of every address that reads as an IP. */
  function FromAddresses(addresses: seq<string>, port: nat, read: IpReader): set<string> {
    if addresses == [] then {}
    else
      var last := addresses[|addresses| - 1];
      FromAddresses(addresses[..|addresses| - 1], port, read) + KeysOf(last, port, read)
  }

  function KeysOf(address: string, port: nat, read: IpReader): set<string> {
    match read(address) case Some(ip) => {Key(ip, port)} case None => {}
  }

  function FromEndpoint(e: EndpointInfo, port: nat, read: IpReader): set<string> {
    if IsUsable(e) then FromAddresses(e.addresses, port, read) else {}
  }

  function FromEndpoints(endpoints: seq<EndpointInfo>, port: nat, read: IpReader): set<string> {
    if endpoints == [] then {}
    else
      FromEndpoints(endpoints[..|endpoints| - 1], port, read) + FromEndpoint(endpoints[|endpoints| - 1], port, read)
  }

  function FromSlice(slice: Slice, configured: nat, read: IpReader): set<string> {
    FromEndpoints(slice.endpoints, PortOf(slice, configured), read)
  }

  /** Every usable endpoint key of the slices. */
  function FromSlices(slices: seq<Slice>, configured: nat, read: IpReader): set<string> {
    if slices == [] then {}
    else
      FromSlices(slices[..|slices| - 1], configured, read) + FromSlice(slices[|slices| - 1], configured, read)
  }

  /** The port a slice's endpoints are reached at: its first given one in 16 bits, or the configured one. */
  predicate IsReachedAt(ports: seq<Option<int>>, configured: nat, port: nat) {
    || (port == configured && forall i :: 0 <= i < |ports| ==> ports[i] == None)
    || exists i :: && 0 <= i < |ports| && ports[i].Some? && port == ports[i].value % 65_536
                   && forall j :: 0 <= j < i ==> ports[j] == None
  }

  lemma {:induction false} FirstPortIsFirst(ports: seq<Option<int>>)
    ensures match FirstPort(ports)
            case None => forall i :: 0 <= i < |ports| ==> ports[i] == None
            case Some(p) =>
              exists i :: 0 <= i < |ports| && ports[i] == Some(p) && forall j :: 0 <= j < i ==> ports[j] == None
  {
    if ports != [] && ports[0].None? {
      FirstPortIsFirst(ports[1..]);
      if FirstPort(ports).Some? {
        var i :| && 0 <= i < |ports| - 1 && ports[1..][i] == FirstPort(ports)
                 && forall j :: 0 <= j < i ==> ports[1..][j] == None;
        assert ports[i + 1] == FirstPort(ports);
        assert forall j :: 0 < j < i + 1 ==> ports[j] == ports[1..][j - 1];
      }
    }
  }

  lemma ReachedAtExactlyWhen(slice: Slice, configured: nat, port: nat)
    ensures IsReachedAt(slice.ports, configured, port) <==> port == PortOf(slice, configured)
  {
    FirstPortIsFirst(slice.ports);
  }

  /** Address, colon and port of an endpoint that is not marked unready and targets a Pod or nothing. */
  predicate IsKeyOfEndpoint(key: string, e: EndpointInfo, port: nat, read: IpReader) {
    && e.ready != Some(false) && e.targetKind in {None, Some(Some("Pod"))}
    && exists k :: && 0 <= k < |e.addresses| && read(e.addresses[k]).Some?
                   && key == read(e.addresses[k]).value + ":" + Decimal(port)
  }

  lemma {:induction false} AddressKeysExactlyWhen(addresses: seq<string>, port: nat, read: IpReader, key: string)
    ensures key in FromAddresses(addresses, port, read)
            <==> exists k :: && 0 <= k < |addresses| && read(addresses[k]).Some?
                             && key == read(addresses[k]).value + ":" + Decimal(port)
  {
    if addresses != [] {
      var init, last := addresses[..|addresses| - 1], |addresses| - 1;
      AddressKeysExactlyWhen(init, port, read, key);
      assert forall k :: 0 <= k < last ==> init[k] == addresses[k];
      if key in KeysOf(addresses[last], port, read) {
        assert key == read(addresses[last]).value + ":" + Decimal(port);
      }
    }
  }

  lemma {:induction false} EndpointKeysExactlyWhen(endpoints: seq<EndpointInfo>, port: nat, read: IpReader, key: string)
    ensures key in FromEndpoints(endpoints, port, read)
            <==> exists k :: 0 <= k < |endpoints| && IsKeyOfEndpoint(key, endpoints[k], port, read)
  {
    if endpoints != [] {
      var init, last := endpoints[..|endpoints| - 1], |endpoints| - 1;
      EndpointKeysExactlyWhen(init, port, read, key);
      AddressKeysExactlyWhen(endpoints[last].addresses, port, read, key);
      assert forall k :: 0 <= k < last ==> init[k] == endpoints[k];
      assert key in FromEndpoint(endpoints[last], port, read) <==> IsKeyOfEndpoint(key, endpoints[last], port, read);
    }
  }

  /** Some endpoint of the slice has this key, at the slice's port. */
  ghost predicate IsKeyOfSlice(key: string, slice: Slice, configured: nat, read: IpReader) {
    exists k, port :: && 0 <= k < |slice.endpoints| && IsReachedAt(slice.ports, configured, port)
                      && IsKeyOfEndpoint(key, slice.endpoints[k], port, read)
  }

  ghost predicate IsKeyOfSlices(key: string, slices: seq<Slice>, configured: nat, read: IpReader) {
    exists i :: 0 <= i < |slices| && IsKeyOfSlice(key, slices[i], configured, read)
  }

  lemma SliceKeysExactlyWhen(slice: Slice, configured: nat, read: IpReader, key: string)
    ensures key in FromSlice(slice, configured, read) <==> IsKeyOfSlice(key, slice, configured, read)
  {
    var port := PortOf(slice, configured);
    EndpointKeysExactlyWhen(slice.endpoints, port, read, key);
    forall p ensures IsReachedAt(slice.ports, configured, p) <==> p == port {
      ReachedAtExactlyWhen(slice, configured, p);
    }
    if k :| 0 <= k < |slice.endpoints| && IsKeyOfEndpoint(key, slice.endpoints[k], port, read) {
      assert IsReachedAt(slice.ports, configured, port);
      assert IsKeyOfSlice(key, slice, configured, read);
    }
  }

  /** What discovery may find, over the fields of the slices. */
  lemma {:induction false} FoundKeyExactlyWhen(slices: seq<Slice>, configured: nat, read: IpReader, key: string)
    ensures key in FromSlices(slices, configured, read) <==> IsKeyOfSlices(key, slices, configured, read)
  {
    if slices != [] {
      var init, last := slices[..|slices| - 1], |slices| - 1;
      FoundKeyExactlyWhen(init, configured, read, key);
      SliceKeysExactlyWhen(slices[last], configured, read, key);
      assert forall i :: 0 <= i < last ==> init[i] == slices[i];
    }
  }

  /** Below the cap everything was taken; at the cap the rest was left. */
  predicate Collects(found: set<string>, all: set<string>, capped: bool) {
    && |found| <= MAX_DISCOVERED_ENDPOINTS && found <= all
    && (capped ==> |found| == MAX_DISCOVERED_ENDPOINTS)
    && (!capped ==> found == all)
  }

  lemma {:induction false} AddressesGrow(addresses: seq<string>, i: nat, port: nat, read: IpReader)
    requires i <= |addresses|
    ensures FromAddresses(addresses[..i], port, read) <= FromAddresses(addresses, port, read)
  {
    if i < |addresses| {
      var init := addresses[..|addresses| - 1];
      assert init[..i] == addresses[..i];
      AddressesGrow(init, i, port, read);
    } else {
      assert addresses[..i] == addresses;
    }
  }

  lemma {:induction false} EndpointsGrow(endpoints: seq<EndpointInfo>, i: nat, port: nat, read: IpReader)
    requires i <= |endpoints|
    ensures FromEndpoints(endpoints[..i], port, read) <= FromEndpoints(endpoints, port, read)
  {
    if i < |endpoints| {
      var init := endpoints[..|endpoints| - 1];
      assert init[..i] == endpoints[..i];
      EndpointsGrow(init, i, port, read);
    } else {
      assert endpoints[..i] == endpoints;
    }
  }

  lemma {:induction false} SlicesGrow(slices: seq<Slice>, i: nat, configured: nat, read: IpReader)
    requires i <= |slices|
    ensures FromSlices(slices[..i], configured, read) <= FromSlices(slices, configured, read)
  {
    if i < |slices| {
      var init := slices[..|slices| - 1];
      assert init[..i] == slices[..i];
      SlicesGrow(init, i, configured, read);
    } else {
      assert slices[..i] == slices;
    }
  }

  lemma AddressesSnoc(addresses: seq<string>, i: nat, port: nat, read: IpReader)
    requires i < |addresses|
    ensures FromAddresses(addresses[..i + 1], port, read)
         == FromAddresses(addresses[..i], port, read) + KeysOf(addresses[i], port, read)
  {
    assert addresses[..i + 1][..i] == addresses[..i];
  }

  method AddAddresses(found: set<string>, addresses: seq<string>, port: nat, read: IpReader)
    returns (found': set<string>, capped: bool)
    requires |found| <= MAX_DISCOVERED_ENDPOINTS
    ensures Collects(found', found + FromAddresses(addresses, port, read), capped)
  {
    found', capped := found, false;
    for i := 0 to |addresses|
      invariant found' == found + FromAddresses(addresses[..i], port, read)
      invariant |found'| <= MAX_DISCOVERED_ENDPOINTS
    {
      AddressesSnoc(addresses, i, port, read);
      if |found'| >= MAX_DISCOVERED_ENDPOINTS {
        AddressesGrow(addresses, i, port, read);
        return found', true;
      }
      match read(addresses[i])
      case Some(ip) => found' := found' + {Key(ip, port)};
      case None =>
    }
    assert addresses[..|addresses|] == addresses;
  }

  lemma EndpointsSnoc(endpoints: seq<EndpointInfo>, i: nat, port: nat, read: IpReader)
    requires i < |endpoints|
    ensures FromEndpoints(endpoints[..i + 1], port, read)
         == FromEndpoints(endpoints[..i], port, read) + FromEndpoint(endpoints[i], port, read)
  {
    assert endpoints[..i + 1][..i] == endpoints[..i];
  }

  method AddEndpoints(found: set<string>, endpoints: seq<EndpointInfo>, port: nat, read: IpReader)
    returns (found': set<string>, capped: bool)
    requires |found| <= MAX_DISCOVERED_ENDPOINTS
    ensures Collects(found', found + FromEndpoints(endpoints, port, read), capped)
  {
    found', capped := found, false;
    for i := 0 to |endpoints|
      invariant found' == found + FromEndpoints(endpoints[..i], port, read)
      invariant |found'| <= MAX_DISCOVERED_ENDPOINTS
    {
      var e := endpoints[i];
      EndpointsSnoc(endpoints, i, port, read);
      if e.ready == Some(false) || (e.targetKind.Some? && e.targetKind.value != Some(POD)) {
        continue;
      }
      found', capped := AddAddresses(found', e.addresses, port, read);
      if capped {
        EndpointsGrow(endpoints, i + 1, port, read);
        return;
      }
    }
    assert endpoints[..|endpoints|] == endpoints;
  }

  lemma SlicesSnoc(slices: seq<Slice>, i: nat, configured: nat, read: IpReader)
    requires i < |slices|
    ensures FromSlices(slices[..i + 1], configured, read)
         == FromSlices(slices[..i], configured, read) + FromSlice(slices[i], configured, read)
  {
    assert slices[..i + 1][..i] == slices[..i];
  }

  /** `discover_tetragon_endpoints`, from the listed slices on. */
  method DiscoverEndpoints(slices: seq<Slice>, configured: nat, read: IpReader) returns (found: set<string>)
    ensures IsEndpointSet(found)
    ensures forall key :: key in found ==> IsKeyOfSlices(key, slices, configured, read)
    ensures |found| < 16 ==> forall key :: key in found <==> IsKeyOfSlices(key, slices, configured, read)
  {
    forall key ensures key in FromSlices(slices, configured, read) <==> IsKeyOfSlices(key, slices, configured, read) {
      FoundKeyExactlyWhen(slices, configured, read, key);
    }
    found := {};
    for i := 0 to |slices|
      invariant found == FromSlices(slices[..i], configured, read)
      invariant |found| <= MAX_DISCOVERED_ENDPOINTS
    {
      SlicesSnoc(slices, i, configured, read);
      var capped;
      found, capped := AddEndpoints(found, slices[i].endpoints, PortOf(slices[i], configured), read);
      if capped {
        SlicesGrow(slices, i + 1, configured, read);
        FoundKeysFitTheManager(found, slices, configured, read);
        return;
      }
    }
    assert slices[..|slices|] == slices;
    FoundKeysFitTheManager(found, slices, configured, read);
  }

  /** What discovery hands to the stream manager is what the manager relies on. */
  lemma FoundKeysFitTheManager(found: set<string>, slices: seq<Slice>, configured: nat, read: IpReader)
    requires |found| <= MAX_DISCOVERED_ENDPOINTS && found <= FromSlices(slices, configured, read)
    ensures IsEndpointSet(found)
  {
    if FALLBACK_STREAM_KEY in FromSlices(slices, configured, read) {
      DiscoveredKeysAreNotTheFallback(slices, configured, read, FALLBACK_STREAM_KEY);
    }
  }

  lemma {:induction false} AddressKeysHoldColons(addresses: seq<string>, port: nat, read: IpReader, key: string)
    requires key in FromAddresses(addresses, port, read)
    ensures ':' in key
  {
    var init := addresses[..|addresses| - 1];
    if key in FromAddresses(init, port, read) {
      AddressKeysHoldColons(init, port, read, key);
    } else {
      var ip := read(addresses[|addresses| - 1]).value;
      assert key == Key(ip, port) && key[|ip|] == ':';
    }
  }

  lemma {:induction false} EndpointKeysHoldColons(endpoints: seq<EndpointInfo>, port: nat, read: IpReader, key: string)
    requires key in FromEndpoints(endpoints, port, read)
    ensures ':' in key
  {
    var init, last := endpoints[..|endpoints| - 1], endpoints[|endpoints| - 1];
    if key in FromEndpoints(init, port, read) {
      EndpointKeysHoldColons(init, port, read, key);
    } else {
      AddressKeysHoldColons(last.addresses, port, read, key);
    }
  }

  /** No slice content can produce the fallback's key. */
  lemma {:induction false} DiscoveredKeysAreNotTheFallback(slices: seq<Slice>, configured: nat, read: IpReader,
                                                          key: string)
    requires key in FromSlices(slices, configured, read)
    ensures key != FALLBACK_STREAM_KEY
  {
    var init, last := slices[..|slices| - 1], slices[|slices| - 1];
    if key in FromSlices(init, configured, read) {
      DiscoveredKeysAreNotTheFallback(init, configured, read, key);
    } else {
      EndpointKeysHoldColons(last.endpoints, PortOf(last, configured), read, key);
      assert ':' !in FALLBACK_STREAM_KEY;
    }
  }
}

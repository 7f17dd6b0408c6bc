/** Run-configuration resolution in the `Mac` component: the disk, the
    Ethernet provider and the two flags derived once from the page's host,
    its query parameters and the static disk catalog. */
module ConfigResolution {
  import opened Common
  import opened Strings
  import opened Catalog

  /** The two provider strategies: a relay zone named by a string, or
      same-origin broadcast. */
  datatype EthernetProvider = ZoneRelay(zoneName: string) | Broadcast

  datatype RunConfig = RunConfig(
    disk: DiskDef,
    ethernetProvider: Option<EthernetProvider>,
    useSharedMemory: bool,
    debugAudio: bool)

  /** The catalog key used when the domain has no entry of its own. */
  const DefaultDomain: string := "system7.app"

  /** A query parameter is truthy when present and not the empty string. */
  predicate Truthy(params: map<string, string>, key: string)
  {
    key in params && params[key] != ""
  }

  /** `domain` is of the form `<zone>.<base>.app`: it ends in `.app` and
      splits on `.` into exactly three pieces. */
  predicate IsZoneHost(domain: string)
  {
    EndsWith(domain, ".app") && |Split(domain, '.')| == 3
  }

  lemma JoinThree(x: string, y: string, z: string)
    ensures Join([x, y, z], '.') == x + "." + y + "." + z
  {
    var p := [x, y, z];
    assert p[1..] == [y, z] && p[1..][1..] == [z];
    assert Join([z], '.') == z;
    assert Join([y, z], '.') == y + "." + z;
  }

  /** A host splits into three pieces exactly when it holds two dots, and
      it is then `<zone>.<base>.<tld>` for the dot-free pieces. */
  lemma ThreePiecesIff(domain: string)
    ensures |Split(domain, '.')| == 3 <==> Occurrences(domain, '.') == 2
    ensures |Split(domain, '.')| == 3 ==>
      var p := Split(domain, '.');
      domain == p[0] + "." + p[1] + "." + p[2]
  {
    var p := Split(domain, '.');
    if |p| == 3 {
      assert p == [p[0], p[1], p[2]];
      JoinThree(p[0], p[1], p[2]);
    }
  }

  lemma EndsWithConcat(x: string, y: string)
    ensures EndsWith(x + y, y)
  {
    assert (x + y)[|x|..] == y;
  }

  /** For dot-free `zone` and `base`, the host `<zone>.<base>.app` gives
      back exactly those pieces. */
  lemma ZoneHostPieces(zone: string, base: string)
    requires '.' !in zone && '.' !in base
    ensures IsZoneHost(zone + "." + base + ".app")
    ensures Split(zone + "." + base + ".app", '.') == [zone, base, "app"]
  {
    var pieces := [zone, base, "app"];
    var h := zone + "." + base + ".app";
    JoinThree(zone, base, "app");
    assert zone + "." + base + "." + "app" == h;
    forall i | 0 <= i < |pieces|
      ensures '.' !in pieces[i]
    {
      assert '.' !in "app";
    }
    SplitOfJoin(pieces, '.');
    EndsWithConcat(zone + "." + base, ".app");
  }

  /** Resolves the configuration: the `domain` parameter overrides the
      host; a `<zone>.<base>.app` host gives a relay provider for `<zone>`
      and the catalog key `<base>.app`; otherwise a truthy `ethernet`
      parameter selects a relay for a truthy `ethernet_zone`, or broadcast;
      the disk is the catalog entry of the key or of `system7.app`. */
  method ResolveRunConfig(
    host: string,
    params: map<string, string>,
    catalog: map<string, DiskDef>,
    hasSharedArrayBuffer: bool)
    returns (config: RunConfig, domain: string)
    requires DefaultDomain in catalog
    ensures
      var requested := Lookup(params, "domain").GetOr(host);
      && (IsZoneHost(requested) ==>
            var pieces := Split(requested, '.');
            && config.ethernetProvider == Some(ZoneRelay(pieces[0]))
            && domain == pieces[1] + ".app")
      && (!IsZoneHost(requested) ==>
            && domain == requested
            && config.ethernetProvider ==
                 (if !Truthy(params, "ethernet") then None
                  else if Truthy(params, "ethernet_zone") then Some(ZoneRelay(params["ethernet_zone"]))
                  else Some(Broadcast)))
    ensures config.disk == if domain in catalog then catalog[domain] else catalog[DefaultDomain]
    ensures config.useSharedMemory <==> hasSharedArrayBuffer && Lookup(params, "use_shared_memory") != Some("false")
    ensures config.debugAudio <==> Lookup(params, "debug_audio") == Some("true")
    // An unknown catalog key never fails: it falls back to the default disk.
    ensures domain !in catalog ==> config.disk == catalog[DefaultDomain]
  {
    domain := if "domain" in params then params["domain"] else host;
    var ethernetProvider: Option<EthernetProvider> := None;
    if EndsWith(domain, ".app") {
      var pieces := Split(domain, '.');
      if |pieces| == 3 {
        ethernetProvider := Some(ZoneRelay(pieces[0]));
        domain := pieces[1] + ".app";
      }
    }
    if ethernetProvider.None? && Truthy(params, "ethernet") {
      ethernetProvider :=
        if Truthy(params, "ethernet_zone") then Some(ZoneRelay(params["ethernet_zone"])) else Some(Broadcast);
    }
    var disk := if domain in catalog then catalog[domain] else catalog[DefaultDomain];
    var useSharedMemory := hasSharedArrayBuffer && Lookup(params, "use_shared_memory") != Some("false");
    var debugAudio := Lookup(params, "debug_audio") == Some("true");
    config := RunConfig(disk, ethernetProvider, useSharedMemory, debugAudio);
  }
}

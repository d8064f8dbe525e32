/** The collectors of every device: instances shared by name, one for every feature that some device can get. */
module Collectors {
  import opened Bytes
  import opened Configuration

  // An instance is known by its name; None is a nil collector.
  type Instance = Option<string>

  datatype Entry = Entry(collector: Instance, name: string, conf: FeatureConf)

  datatype DeviceEntries = DeviceEntries(device: Device, entries: seq<Entry>)

  // Instances of the enabled features; an unregistered name gets none.
  method CreateCollectors(enabled: seq<string>, registered: set<string>) returns (colls: map<string, string>)
    ensures colls == map k | k in enabled && k in registered :: k
  {
    colls := map[];
    for i := 0 to |enabled|
      invariant colls == map k | k in enabled[..i] && k in registered :: k
    {
      assert forall k :: k in enabled[..i + 1] <==> k in enabled[..i] || k == enabled[i];
      if enabled[i] in registered {
        colls := colls[enabled[i] := enabled[i]];
      }
    }
    assert enabled[..|enabled|] == enabled;
  }

  function EntryOf(colls: map<string, string>, fs: Features, name: string): Entry {
    Entry(if name in colls then Some(colls[name]) else None, name, if name in fs then fs[name] else None)
  }

  method Get(colls: map<string, string>, names: seq<string>, fs: Features) returns (entries: seq<Entry>)
    ensures |entries| == |names| && forall i :: 0 <= i < |names| ==> entries[i] == EntryOf(colls, fs, names[i])
  {
    entries := [];
    for i := 0 to |names|
      invariant |entries| == i && forall k :: 0 <= k < i ==> entries[k] == EntryOf(colls, fs, names[k])
    {
      entries := entries + [EntryOf(colls, fs, names[i])];
    }
  }

  // The entries are the enabled features, each once, with their configuration; a collector is nil exactly if its
  // name is not registered.
  ghost predicate Serves(entries: seq<Entry>, fs: Features, registered: set<string>) {
    && (forall i, j :: 0 <= i < j < |entries| ==> entries[i].name != entries[j].name)
    && (forall k :: k in EnabledNames(fs) <==> exists i :: 0 <= i < |entries| && entries[i].name == k)
    && (forall i :: 0 <= i < |entries| ==>
          && entries[i].name in fs && entries[i].conf == fs[entries[i].name]
          && entries[i].collector == if entries[i].name in registered then Some(entries[i].name) else None)
  }

  ghost predicate NoNil(entries: seq<Entry>) {
    forall i :: 0 <= i < |entries| ==> entries[i].collector.Some?
  }

  // The names of the features that the device at position i gets.
  function Resolved(features: Features, profiles: map<string, Features>, devices: seq<Device>, i: nat): set<string>
    requires i < |devices|
  {
    match DeviceFeatures(features, profiles, devices, devices[i].name)
    case None => {}
    case Some(fs) => EnabledNames(fs)
  }

  // The device at position i with the entries of the features its name resolves to.
  ghost predicate HandedTo(features: Features, profiles: map<string, Features>, devices: seq<Device>,
                           registered: set<string>, dc: DeviceEntries, i: nat)
    requires i < |devices|
  {
    && dc.device == devices[i]
    && var fs := DeviceFeatures(features, profiles, devices, devices[i].name);
       fs.Some? && Serves(dc.entries, fs.value, registered)
  }

  ghost predicate Handed(features: Features, profiles: map<string, Features>, devices: seq<Device>,
                         registered: set<string>, dcs: seq<DeviceEntries>)
  {
    && |dcs| == |devices|
    && forall i :: 0 <= i < |dcs| ==> HandedTo(features, profiles, devices, registered, dcs[i], i)
  }

  /** Every device of a loaded configuration, in order, with the entries of its features, "resource" among them. */
  method NewCollector(cfg: Config, registered: set<string>) returns (dcs: seq<DeviceEntries>)
    requires cfg.Valid()
    ensures Handed(cfg.features, cfg.profiles, cfg.devices, registered, dcs)
    ensures forall i :: 0 <= i < |dcs| ==> RESOURCE in Resolved(cfg.features, cfg.profiles, cfg.devices, i)
  {
    dcs := [];
    var enabled := cfg.AllEnabledFeatures();
    var colls := CreateCollectors(enabled, registered);
    for i := 0 to |cfg.devices|
      invariant |dcs| == i
      invariant forall k :: 0 <= k < i ==>
                  && HandedTo(cfg.features, cfg.profiles, cfg.devices, registered, dcs[k], k)
                  && RESOURCE in Resolved(cfg.features, cfg.profiles, cfg.devices, k)
    {
      var dev := cfg.devices[i];
      FeaturesContained(cfg.features, cfg.profiles, cfg.devices, i);
      HasResource(cfg, i);
      var feat := cfg.DeviceFeaturesOf(dev.name);
      var names := FeatureNames(feat);
      var entries := Get(colls, names, feat);
      EntriesServe(colls, names, feat, entries, registered);
      dcs := dcs + [DeviceEntries(dev, entries)];
    }
  }

  lemma HasResource(cfg: Config, i: nat)
    requires cfg.Valid() && i < |cfg.devices|
    ensures var fs := DeviceFeatures(cfg.features, cfg.profiles, cfg.devices, cfg.devices[i].name);
            fs.Some? && RESOURCE in EnabledNames(fs.value)
  {
    var j := FirstNamed(cfg.features, cfg.profiles, cfg.devices, i);
  }

  lemma EntriesServe(colls: map<string, string>, names: seq<string>, fs: Features, entries: seq<Entry>,
                     registered: set<string>)
    requires NoDuplicates(names) && forall k :: k in names <==> k in EnabledNames(fs)
    requires |entries| == |names| && forall i :: 0 <= i < |names| ==> entries[i] == EntryOf(colls, fs, names[i])
    requires forall k :: k in names ==> (k in colls <==> k in registered) && (k in colls ==> colls[k] == k)
    ensures Serves(entries, fs, registered)
  {
    forall k ensures k in EnabledNames(fs) <==> exists i :: 0 <= i < |entries| && entries[i].name == k {
      if k in names {
        var i :| 0 <= i < |names| && names[i] == k;
        assert entries[i].name == k;
      }
    }
    forall i | 0 <= i < |entries| ensures entries[i].name in names && entries[i].name in EnabledNames(fs) {
      assert names[i] in names;
    }
  }

  /** None of a device's collectors is nil exactly when its enabled features are registered names. */
  lemma NilFree(entries: seq<Entry>, fs: Features, registered: set<string>)
    requires Serves(entries, fs, registered)
    ensures NoNil(entries) <==> EnabledNames(fs) <= registered
  {
    if NoNil(entries) {
      forall k | k in EnabledNames(fs) ensures k in registered {
        var i :| 0 <= i < |entries| && entries[i].name == k;
        assert entries[i].collector.Some?;
      }
    }
  }

  // What the configuration file enables for a device, before "resource" is added.
  function Asked(c: Decoded, d: Device): set<string> {
    if d.profile == "" then EnabledNames(OrEmpty(c.features))
    else if d.profile in c.profiles then EnabledNames(OrEmpty(c.profiles[d.profile]))
    else {}
  }

  predicate FirstOfName(devices: seq<Device>, i: nat)
    requires i < |devices|
  {
    forall k :: 0 <= k < i ==> devices[k].name != devices[i].name
  }

  // Every first device of its name asks for registered names only, in their exact spelling.
  predicate AsksRegistered(c: Decoded, devices: seq<Device>, registered: set<string>) {
    forall i :: 0 <= i < |devices| && FirstOfName(devices, i) ==> Asked(c, devices[i]) + {RESOURCE} <= registered
  }

  // A device gets what the first device of its name asked for, and "resource".
  lemma ResolvedAsked(c: Decoded, features: Features, profiles: map<string, Features>, devices: seq<Device>, i: nat)
    returns (j: nat)
    requires LoadedFrom(c, features, profiles, devices) && i < |devices|
    ensures j <= i && devices[j].name == devices[i].name
    ensures FirstOfName(devices, j) && (FirstOfName(devices, i) ==> j == i)
    ensures Resolved(features, profiles, devices, i) == Asked(c, devices[j]) + {RESOURCE}
  {
    hide EnabledNames, Fixed, FixConf;
    j := FirstNamed(features, profiles, devices, i);
    var p := devices[j].profile;
    EnabledAfterLoad(if p == "" then OrEmpty(c.features) else c.profiles[p].value);
  }

  /**
   In terms of the configuration file: a device gets what it asks for itself, and "resource", exactly when the first
   device of its name asks for the same, "resource" apart.
   */
  lemma GetsWhatItAsks(c: Decoded, features: Features, profiles: map<string, Features>, devices: seq<Device>, i: nat,
                       j: nat)
    requires LoadedFrom(c, features, profiles, devices) && j <= i < |devices|
    requires FirstOfName(devices, j) && devices[j].name == devices[i].name
    ensures Resolved(features, profiles, devices, i) == Asked(c, devices[i]) + {RESOURCE} <==>
            Asked(c, devices[i]) - {RESOURCE} == Asked(c, devices[j]) - {RESOURCE}
  {
    hide Asked, Resolved;
    var first := ResolvedAsked(c, features, profiles, devices, i);
    assert first == j;
    SameButOne(Asked(c, devices[i]), Asked(c, devices[j]), RESOURCE);
  }

  lemma SameButOne(x: set<string>, y: set<string>, e: string)
    ensures x + {e} == y + {e} <==> x - {e} == y - {e}
  {
    assert x + {e} == (x - {e}) + {e} && y + {e} == (y - {e}) + {e};
    assert (x + {e}) - {e} == x - {e} && (y + {e}) - {e} == y - {e};
  }

  /**
   No device of a loaded configuration is handed a nil collector exactly when, in the configuration file, the first
   device of every name enables registered names only. The comparison is exact, unlike the check that load makes.
   */
  lemma NilFreeLoad(c: Decoded, registered: set<string>, features: Features, profiles: map<string, Features>,
                    devices: seq<Device>, dcs: seq<DeviceEntries>)
    requires LoadedFrom(c, features, profiles, devices) && Handed(features, profiles, devices, registered, dcs)
    ensures (forall i :: 0 <= i < |dcs| ==> NoNil(dcs[i].entries)) <==> AsksRegistered(c, devices, registered)
  {
    hide Resolved, Asked, FirstOfName, LoadedFrom, NoNil, HandedTo;
    forall i | 0 <= i < |dcs|
      ensures NoNil(dcs[i].entries) <==> Resolved(features, profiles, devices, i) <= registered
    {
      HandedNilFree(features, profiles, devices, registered, dcs[i], i);
    }
    if AsksRegistered(c, devices, registered) {
      forall i | 0 <= i < |dcs| ensures NoNil(dcs[i].entries) {
        var j := ResolvedAsked(c, features, profiles, devices, i);
      }
    }
    if forall i :: 0 <= i < |dcs| ==> NoNil(dcs[i].entries) {
      forall i | 0 <= i < |devices| && FirstOfName(devices, i)
        ensures Asked(c, devices[i]) + {RESOURCE} <= registered
      {
        assert NoNil(dcs[i].entries);
        var j := ResolvedAsked(c, features, profiles, devices, i);
      }
    }
  }

  lemma HandedNilFree(features: Features, profiles: map<string, Features>, devices: seq<Device>,
                      registered: set<string>, dc: DeviceEntries, i: nat)
    requires i < |devices| && HandedTo(features, profiles, devices, registered, dc, i)
    ensures NoNil(dc.entries) <==> Resolved(features, profiles, devices, i) <= registered
  {
    NilFree(dc.entries, DeviceFeatures(features, profiles, devices, devices[i].name).value, registered);
  }

  // The features that the configuration file gives a device.
  function FileFeatures(c: Decoded, d: Device): Features {
    if d.profile == "" then OrEmpty(c.features)
    else if d.profile in c.profiles then OrEmpty(c.profiles[d.profile])
    else map[]
  }

  /**
   Entries as a feature map of the file makes them: "resource", and every feature that is not switched off, each with
   its own options and the collector of its name, if there is one.
   */
  ghost predicate AsOnFile(file: Features, registered: set<string>, entries: seq<Entry>) {
    && (forall k :: (exists e :: 0 <= e < |entries| && entries[e].name == k) <==>
                    k == "resource" || (k in file && !SwitchedOff(file[k])))
    && (forall e :: 0 <= e < |entries| ==>
          var name := entries[e].name;
          && entries[e].collector == (if name in registered then Some(name) else None)
          && Completes(if name != "resource" && name in file then file[name] else None, entries[e].conf))
    && (forall e, f :: 0 <= e < f < |entries| ==> entries[e].name != entries[f].name)
  }

  /** A device is handed what the file says for the first device of its name. */
  lemma EntriesOnFile(c: Decoded, registered: set<string>, features: Features, profiles: map<string, Features>,
                      devices: seq<Device>, dc: DeviceEntries, i: nat, j: nat)
    requires LoadedFrom(c, features, profiles, devices) && j <= i < |devices|
    requires HandedTo(features, profiles, devices, registered, dc, i)
    requires FirstOfName(devices, j) && devices[j].name == devices[i].name
    ensures AsOnFile(FileFeatures(c, devices[j]), registered, dc.entries)
  {
    hide Fixed, Completes, SwitchedOff, Enabled, EnabledNames;
    var first := FirstNamed(features, profiles, devices, i);
    var fs, file := DeviceFeatures(features, profiles, devices, devices[i].name).value, FileFeatures(c, devices[j]);
    assert fs == Fixed(file[RESOURCE := None]);
    EnabledAfterLoad(file);
    forall k ensures k in fs <==> k == RESOURCE || k in file {
      FixedOptions(file[RESOURCE := None], k);
    }
    forall k ensures k in EnabledNames(file) <==> k in file && !SwitchedOff(file[k]) {
      FixedOptions(file, k);
      EnabledInMap(file, k);
    }
    forall e | 0 <= e < |dc.entries|
      ensures var name := dc.entries[e].name;
              Completes(if name != "resource" && name in file then file[name] else None, dc.entries[e].conf)
    {
      FixedOptions(file[RESOURCE := None], dc.entries[e].name);
      assert dc.entries[e].conf == fs[dc.entries[e].name];
    }
    forall k ensures (exists e :: 0 <= e < |dc.entries| && dc.entries[e].name == k) <==>
                     k == "resource" || (k in file && !SwitchedOff(file[k]))
    {
      assert k in EnabledNames(fs) <==> k == RESOURCE || k in EnabledNames(file);
    }
  }

  lemma EnabledInMap(fs: Features, k: string)
    ensures k in EnabledNames(fs) ==> k in fs
  {}

  ghost predicate OnFile(c: Decoded, registered: set<string>, devices: seq<Device>, dcs: seq<DeviceEntries>) {
    && |dcs| == |devices|
    && forall i, j :: 0 <= j <= i < |devices| && FirstOfName(devices, j) && devices[j].name == devices[i].name ==>
         AsOnFile(FileFeatures(c, devices[j]), registered, dcs[i].entries)
  }

  lemma AllOnFile(c: Decoded, registered: set<string>, features: Features, profiles: map<string, Features>,
                  devices: seq<Device>, dcs: seq<DeviceEntries>)
    requires LoadedFrom(c, features, profiles, devices) && Handed(features, profiles, devices, registered, dcs)
    ensures OnFile(c, registered, devices, dcs) && devices == EnabledDevices(c.devices)
    ensures forall i :: 0 <= i < |dcs| ==> dcs[i].device == devices[i]
  {
    hide AsOnFile, FirstOfName;
    forall i, j | 0 <= j <= i < |devices| && FirstOfName(devices, j) && devices[j].name == devices[i].name
      ensures AsOnFile(FileFeatures(c, devices[j]), registered, dcs[i].entries)
    {
      EntriesOnFile(c, registered, features, profiles, devices, dcs[i], i, j);
    }
  }

  /**
   From a decoded configuration file to the collectors of its devices. When the file is accepted the enabled devices
   come out in order, each with the entries that the file says for the first device of its name, and none of them has a
   nil collector exactly when the file enables registered names only.
   */
  method CollectorsOf(c: Decoded, registered: set<string>, lower: string -> string)
    returns (r: Loading, dcs: seq<DeviceEntries>)
    ensures r == Loaded <==> Acceptable(c, registered, lower)
    ensures r == Loaded ==>
              && |dcs| == |EnabledDevices(c.devices)|
              && (forall i :: 0 <= i < |dcs| ==> dcs[i].device == EnabledDevices(c.devices)[i])
              && ((forall i :: 0 <= i < |dcs| ==> NoNil(dcs[i].entries)) <==>
                  AsksRegistered(c, EnabledDevices(c.devices), registered))
              && OnFile(c, registered, EnabledDevices(c.devices), dcs)
  {
    hide Acceptable, AsksRegistered, NoNil, AsOnFile, HandedTo, LoadedFrom;
    var cfg := new Config();
    dcs := [];
    r := cfg.Load(c, registered, lower);
    if r == Loaded {
      dcs := NewCollector(cfg, registered);
      NilFreeLoad(c, registered, cfg.features, cfg.profiles, cfg.devices, dcs);
      AllOnFile(c, registered, cfg.features, cfg.profiles, cfg.devices, dcs);
    }
  }

  /**
   The check on loading compares names in lower case, the lookup does not: a file with a key in capitals is accepted,
   and its device is handed a nil collector under that key.
   */
  lemma CapitalKey(lower: string -> string, d: Device, features: Features, profiles: map<string, Features>,
                   devices: seq<Device>, dcs: seq<DeviceEntries>)
    returns (k: nat)
    requires lower("DHCP") == "dhcp"
    requires ValidDevice(d, {}) && d.profile == "" && !d.disabled
    requires LoadedFrom(CapitalFile(d), features, profiles, devices)
    requires Handed(features, profiles, devices, {"dhcp", RESOURCE}, dcs)
    ensures Acceptable(CapitalFile(d), {"dhcp", RESOURCE}, lower)
    ensures |dcs| == 1 && dcs[0].device == d
    ensures k < |dcs[0].entries| && dcs[0].entries[k].name == "DHCP" && dcs[0].entries[k].collector.None?
  {
    assert [d][..0] == [];
    assert EnabledDevices([d]) == EnabledDevices([]) + [d];
    EnabledAfterLoad(OrEmpty(CapitalFile(d).features));
    var fs := DeviceFeatures(features, profiles, devices, d.name).value;
    assert HandedTo(features, profiles, devices, {"dhcp", RESOURCE}, dcs[0], 0);
    assert "DHCP" in EnabledNames(fs);
    var i :| 0 <= i < |dcs[0].entries| && dcs[0].entries[i].name == "DHCP";
    assert "DHCP"[0] != "dhcp"[0] && |RESOURCE| == 8;
    k := i;
  }

  function CapitalFile(d: Device): Decoded {
    Decoded(Some(map["DHCP" := None]), map[], [d])
  }
}

/** The configuration: loading, validation, and which features a device has. */
module Configuration {
  import opened Bytes

  // A decoded value; only booleans matter here.
  datatype Value = Bool(b: bool) | Other

  // The configuration of a feature; None is the nil map.
  type FeatureConf = Option<map<string, Value>>

  type Features = map<string, FeatureConf>

  const ENABLED: string := "enabled"
  const RESOURCE: string := "resource"

  datatype Device = Device(name: string, profile: string, hasSrv: bool, record: string, address: string,
                           user: string, password: string, disabled: bool)

  predicate Enabled(f: FeatureConf) {
    f.Some? && ENABLED in f.value && f.value[ENABLED].Bool? ==> f.value[ENABLED].b
  }

  // The option that turns a feature off: only the boolean false does.
  predicate SwitchedOff(f: FeatureConf) {
    f.Some? && "enabled" in f.value && f.value["enabled"] == Bool(false)
  }

  // Every feature has an "enabled" entry, true where there was none.
  function FixConf(f: FeatureConf): FeatureConf {
    match f
    case None => Some(map[ENABLED := Bool(true)])
    case Some(m) => if ENABLED in m then f else Some(m[ENABLED := Bool(true)])
  }

  function Fixed(fs: Features): Features {
    map k | k in fs :: FixConf(fs[k])
  }

  function EnabledNames(fs: Features): set<string> {
    set k | k in fs && Enabled(fs[k])
  }

  // The feature keys are the names of collectors when written in lower case; without collectors there is no check.
  predicate ValidFeatures(fs: Features, collectors: set<string>, lower: string -> string) {
    collectors == {} || forall k :: k in fs ==> lower(k) in collectors
  }

  predicate ValidDevice(d: Device, profiles: set<string>) {
    && (if d.hasSrv then d.record != "" else d.name != "" && d.address != "")
    && d.user != "" && d.password != ""
    && (d.profile != "" ==> d.profile in profiles)
  }

  function EnabledDevices(devices: seq<Device>): seq<Device> {
    if devices == [] then [] else
      EnabledDevices(devices[..|devices| - 1]) +
      if devices[|devices| - 1].disabled then [] else [devices[|devices| - 1]]
  }

  // A decoded configuration. A feature map or a profile can be null.
  datatype Decoded = Decoded(features: Option<Features>, profiles: map<string, Option<Features>>, devices: seq<Device>)

  datatype Loading = Loaded | Rejected | Panicked

  function OrEmpty(fs: Option<Features>): Features {
    match fs case None => map[] case Some(f) => f
  }

  // Loading succeeds: every key is a collector's, no profile is null, every enabled device is complete.
  predicate Acceptable(c: Decoded, collectors: set<string>, lower: string -> string) {
    && ValidFeatures(OrEmpty(c.features), collectors, lower)
    && (forall p :: p in c.profiles ==> c.profiles[p].Some? && ValidFeatures(c.profiles[p].value, collectors, lower))
    && (forall d :: d in EnabledDevices(c.devices) ==> ValidDevice(d, c.profiles.Keys))
  }

  // There is something to report as an error: a key that is no collector's, or an incomplete device.
  predicate Invalid(c: Decoded, collectors: set<string>, lower: string -> string) {
    || !ValidFeatures(OrEmpty(c.features), collectors, lower)
    || (exists p :: p in c.profiles && !ValidFeatures(OrEmpty(c.profiles[p]), collectors, lower))
    || (exists d :: d in EnabledDevices(c.devices) && !ValidDevice(d, c.profiles.Keys))
  }

  // The features of a device name: those of the first device with that name, which must have a known profile.
  function DeviceFeatures(features: Features, profiles: map<string, Features>, devices: seq<Device>, name: string)
    : Option<Features>
  {
    if devices == [] then None
    else if devices[0].name == name then
      if devices[0].profile == "" then Some(features)
      else if devices[0].profile in profiles then Some(profiles[devices[0].profile])
      else None
    else DeviceFeatures(features, profiles, devices[1..], name)
  }

  // The features a device asks for itself.
  function Own(features: Features, profiles: map<string, Features>, d: Device): Features
    requires d.profile != "" ==> d.profile in profiles
  {
    if d.profile == "" then features else profiles[d.profile]
  }

  predicate KnownProfiles(profiles: map<string, Features>, devices: seq<Device>) {
    forall i :: 0 <= i < |devices| ==> devices[i].profile != "" ==> devices[i].profile in profiles
  }

  lemma AllKnown(profiles: map<string, Features>, devices: seq<Device>)
    requires forall d :: d in devices ==> ValidDevice(d, profiles.Keys)
    ensures KnownProfiles(profiles, devices)
  {
    assert forall i :: 0 <= i < |devices| ==> ValidDevice(devices[i], profiles.Keys);
  }

  /** A device gets what the first device of its name asks for, be that itself or another one. */
  lemma {:induction false} FirstNamed(features: Features, profiles: map<string, Features>, devices: seq<Device>, i: nat)
    returns (j: nat)
    requires KnownProfiles(profiles, devices) && i < |devices|
    ensures j <= i && devices[j].name == devices[i].name
    ensures forall k :: 0 <= k < j ==> devices[k].name != devices[i].name
    ensures DeviceFeatures(features, profiles, devices, devices[i].name) == Some(Own(features, profiles, devices[j]))
  {
    if devices[0].name == devices[i].name {
      j := 0;
    } else {
      j := FirstNamed(features, profiles, devices[1..], i - 1);
      j := j + 1;
      assert forall k :: 1 <= k < |devices| ==> devices[k] == devices[1..][k - 1];
    }
  }

  /** The lookup panics exactly for a name that no device has, or whose first device has an unknown profile. */
  lemma {:induction false} UnknownName(features: Features, profiles: map<string, Features>, devices: seq<Device>,
                                       name: string)
    ensures DeviceFeatures(features, profiles, devices, name).None? <==>
            || (forall i :: 0 <= i < |devices| ==> devices[i].name != name)
            || (exists i :: 0 <= i < |devices| && devices[i].name == name
                  && devices[i].profile != "" && devices[i].profile !in profiles
                  && forall k :: 0 <= k < i ==> devices[k].name != name)
  {
    if devices != [] && devices[0].name != name {
      UnknownName(features, profiles, devices[1..], name);
      assert forall i :: 1 <= i < |devices| ==> devices[i] == devices[1..][i - 1];
      if i :| 0 <= i < |devices[1..]| && devices[1..][i].name == name && devices[1..][i].profile != ""
              && devices[1..][i].profile !in profiles && forall k :: 0 <= k < i ==> devices[1..][k].name != name {
        assert devices[i + 1] == devices[1..][i];
        assert forall k :: 0 <= k < i + 1 ==> devices[k].name != name;
      }
    }
  }

  /** A device gets its own features exactly when the first device of its name asks for the same ones. */
  lemma OwnFeatures(features: Features, profiles: map<string, Features>, devices: seq<Device>, i: nat, j: nat)
    requires KnownProfiles(profiles, devices) && j <= i < |devices| && devices[j].name == devices[i].name
    requires forall k :: 0 <= k < j ==> devices[k].name != devices[i].name
    ensures DeviceFeatures(features, profiles, devices, devices[i].name) == Some(Own(features, profiles, devices[i]))
       <==> Own(features, profiles, devices[i]) == Own(features, profiles, devices[j])
  {
    var first := FirstNamed(features, profiles, devices, i);
    assert first == j;
  }

  // What the devices among the first n contribute to the set of all enabled features.
  function AllEnabled(features: Features, profiles: map<string, Features>, devices: seq<Device>, n: nat): set<string>
    requires n <= |devices|
  {
    if n == 0 then {} else
      var d := devices[n - 1];
      var fs := if d.profile == "" then Some(features) else DeviceFeatures(features, profiles, devices, d.name);
      AllEnabled(features, profiles, devices, n - 1) + if fs.Some? then EnabledNames(fs.value) else {}
  }

  lemma {:induction false} AllEnabledHas(features: Features, profiles: map<string, Features>, devices: seq<Device>,
                                         n: nat, j: nat, own: Features)
    requires j < n <= |devices|
    requires if devices[j].profile == "" then own == features
             else DeviceFeatures(features, profiles, devices, devices[j].name) == Some(own)
    ensures EnabledNames(own) <= AllEnabled(features, profiles, devices, n)
  {
    if j < n - 1 {
      AllEnabledHas(features, profiles, devices, n - 1, j, own);
    }
  }

  /** Whatever names are shared or empty, the features of every device are among all enabled features. */
  lemma FeaturesContained(features: Features, profiles: map<string, Features>, devices: seq<Device>, i: nat)
    requires KnownProfiles(profiles, devices) && i < |devices|
    ensures DeviceFeatures(features, profiles, devices, devices[i].name).Some?
    ensures EnabledNames(DeviceFeatures(features, profiles, devices, devices[i].name).value) <=
            AllEnabled(features, profiles, devices, |devices|)
  {
    var j := FirstNamed(features, profiles, devices, i);
    AllEnabledHas(features, profiles, devices, |devices|, j, Own(features, profiles, devices[j]));
  }

  /**
   The fields a successful load of c leaves behind: feature maps with "resource" reset and every "enabled" entry
   filled in, the devices without the disabled ones, in order.
   */
  ghost predicate LoadedFrom(c: Decoded, features: Features, profiles: map<string, Features>, devices: seq<Device>) {
    && features == Fixed(OrEmpty(c.features)[RESOURCE := None])
    && profiles.Keys == c.profiles.Keys
    && (forall p :: p in profiles ==>
          c.profiles[p].Some? && profiles[p] == Fixed(c.profiles[p].value[RESOURCE := None]))
    && devices == EnabledDevices(c.devices)
    && KnownProfiles(profiles, devices)
  }

  // Completing the reset maps of acceptable profiles ends a load.
  lemma FixedIsLoaded(c: Decoded, reset: map<string, Features>, features: Features, profiles: map<string, Features>,
                      devices: seq<Device>)
    requires forall p :: p in c.profiles ==> c.profiles[p].Some?
    requires reset.Keys == c.profiles.Keys
    requires forall p :: p in c.profiles ==> reset[p] == c.profiles[p].value[RESOURCE := None]
    requires features == Fixed(OrEmpty(c.features)[RESOURCE := None])
    requires profiles == map p | p in reset :: Fixed(reset[p])
    requires devices == EnabledDevices(c.devices)
    requires forall d :: d in devices ==> ValidDevice(d, c.profiles.Keys)
    ensures LoadedFrom(c, features, profiles, devices) && KnownProfiles(profiles, devices)
    ensures Resourceful(features) && forall p :: p in profiles ==> Resourceful(profiles[p])
  {
    hide Fixed, Resourceful, ValidDevice;
    assert profiles.Keys == c.profiles.Keys;
    AllKnown(profiles, devices);
    FixedResource(OrEmpty(c.features));
    forall p | p in profiles ensures Resourceful(profiles[p]) {
      FixedResource(c.profiles[p].value);
    }
  }

  class Config {
    var features: Features
    var profiles: map<string, Features>
    var devices: seq<Device>

    constructor ()
      ensures features == map[] && profiles == map[] && devices == []
    {
      features, profiles, devices := map[], map[], [];
    }

    // Every device has a known profile or none, and "resource" is enabled everywhere.
    ghost predicate Valid()
      reads this
    {
      && Resourceful(features)
      && (forall p :: p in profiles ==> Resourceful(profiles[p]))
      && KnownProfiles(profiles, devices)
    }

    // Panics without a device of that name or with an unknown profile.
    method DeviceFeaturesOf(name: string) returns (fs: Features)
      requires DeviceFeatures(features, profiles, devices, name).Some?
      ensures Some(fs) == DeviceFeatures(features, profiles, devices, name)
    {
      for i := 0 to |devices|
        invariant DeviceFeatures(features, profiles, devices[i..], name) ==
                  DeviceFeatures(features, profiles, devices, name)
      {
        assert devices[i..][1..] == devices[i + 1..];
        if devices[i].name == name {
          return if devices[i].profile == "" then features else profiles[devices[i].profile];
        }
      }
      assert false;
    }

    /** The names, each once and in any order, of all features that some device can get. */
    method AllEnabledFeatures() returns (names: seq<string>)
      requires KnownProfiles(profiles, devices)
      ensures NoDuplicates(names)
      ensures forall k :: k in names <==> k in AllEnabled(features, profiles, devices, |devices|)
    {
      hide DeviceFeatures, EnabledNames, SwitchedOff;
      var unique: set<string> := {};
      for i := 0 to |devices|
        invariant unique == AllEnabled(features, profiles, devices, i)
      {
        var fs := features;
        if devices[i].profile != "" {
          FeaturesContained(features, profiles, devices, i);
          fs := DeviceFeaturesOf(devices[i].name);
        }
        var some := FeatureNames(fs);
        unique := unique + set k | k in some;
      }
      names := ListOf(unique);
    }

    /**
     Loads a decoded configuration. It is loaded exactly when it is acceptable, rejected only for an invalid part,
     and panics only on a null profile.
     */
    method Load(c: Decoded, collectors: set<string>, lower: string -> string) returns (r: Loading)
      modifies this
      ensures r == Loaded <==> Acceptable(c, collectors, lower)
      ensures r == Panicked ==> exists p :: p in c.profiles && c.profiles[p].None?
      ensures r == Rejected ==> Invalid(c, collectors, lower)
      ensures r == Loaded ==> Valid() && LoadedFrom(c, features, profiles, devices)
    {
      hide ValidFeatures, ValidDevice, Fixed, EnabledDevices, Resourceful, KnownProfiles, LoadedFrom;
      if !ValidFeatures(OrEmpty(c.features), collectors, lower) {
        return Rejected;
      }
      features := OrEmpty(c.features)[RESOURCE := None];
      FilterDevices(c.devices);
      r := Validate(c.profiles, collectors, lower);
      if r != Loaded {
        return;
      }
      ghost var reset := profiles;
      Fix();
      FixedIsLoaded(c, reset, features, profiles, devices);
    }

    // Removes the disabled devices.
    method FilterDevices(all: seq<Device>)
      modifies this`devices
      ensures devices == EnabledDevices(all)
    {
      devices := [];
      for i := 0 to |all|
        invariant devices == EnabledDevices(all[..i])
      {
        assert all[..i + 1][..i] == all[..i];
        if !all[i].disabled {
          devices := devices + [all[i]];
        }
      }
      assert all[..|all|] == all;
    }

    // The profiles in any order, then the devices.
    method Validate(given: map<string, Option<Features>>, collectors: set<string>, lower: string -> string)
      returns (r: Loading)
      modifies this`profiles
      ensures r == Panicked ==> exists p :: p in given && given[p].None?
      ensures r == Rejected ==>
                || (exists p :: p in given && !ValidFeatures(OrEmpty(given[p]), collectors, lower))
                || (exists d :: d in devices && !ValidDevice(d, given.Keys))
      ensures r == Loaded <==>
                && (forall p :: p in given ==> given[p].Some? && ValidFeatures(given[p].value, collectors, lower))
                && (forall d :: d in devices ==> ValidDevice(d, given.Keys))
      ensures r == Loaded ==>
                && profiles.Keys == given.Keys
                && forall p :: p in given ==> profiles[p] == given[p].value[RESOURCE := None]
    {
      profiles := map[];
      var left := given.Keys;
      while left != {}
        invariant left <= given.Keys && profiles.Keys == given.Keys - left
        invariant forall p :: p in profiles ==>
                    && given[p].Some? && ValidFeatures(given[p].value, collectors, lower)
                    && profiles[p] == given[p].value[RESOURCE := None]
        decreases left
      {
        var name :| name in left;
        left := left - {name};
        if !ValidFeatures(OrEmpty(given[name]), collectors, lower) {
          return Rejected;
        }
        if given[name].None? {
          return Panicked;
        }
        profiles := profiles[name := given[name].value[RESOURCE := None]];
      }
      ghost var reset := profiles;
      assert reset.Keys == given.Keys;
      var valid := true;
      for i := 0 to |devices|
        invariant profiles == reset
        invariant valid <==> forall d :: d in devices[..i] ==> ValidDevice(d, given.Keys)
      {
        assert forall d :: d in devices[..i + 1] <==> d in devices[..i] || d == devices[i];
        valid := valid && ValidDevice(devices[i], profiles.Keys);
      }
      assert devices[..|devices|] == devices;
      return if valid then Loaded else Rejected;
    }

    method Fix()
      modifies this`features, this`profiles
      ensures features == Fixed(old(features))
      ensures profiles == map p | p in old(profiles) :: Fixed(old(profiles)[p])
    {
      features := FixFeatures(features);
      var left := profiles.Keys;
      while left != {}
        invariant features == Fixed(old(features))
        invariant left <= old(profiles).Keys == profiles.Keys
        invariant forall p :: p in profiles ==>
                    profiles[p] == if p in left then old(profiles)[p] else Fixed(old(profiles)[p])
        decreases left
      {
        var name :| name in left;
        left := left - {name};
        var fixed := FixFeatures(profiles[name]);
        profiles := profiles[name := fixed];
      }
    }
  }

  predicate NoDuplicates(names: seq<string>) {
    forall i, j :: 0 <= i < j < |names| ==> names[i] != names[j]
  }

  method ListOf(unique: set<string>) returns (names: seq<string>)
    ensures NoDuplicates(names)
    ensures forall k :: k in names <==> k in unique
  {
    names := [];
    var left := unique;
    while left != {}
      invariant left <= unique && NoDuplicates(names)
      invariant forall k :: k in names <==> k in unique - left
      decreases left
    {
      var k :| k in left;
      assert k !in names;
      left := left - {k};
      names := names + [k];
    }
  }

  // The enabled features of a map, in any order.
  method FeatureNames(fs: Features) returns (names: seq<string>)
    ensures NoDuplicates(names)
    ensures forall k :: k in names <==> k in EnabledNames(fs)
    ensures forall k :: k in names <==> k in fs && !SwitchedOff(fs[k])
  {
    names := [];
    var left := fs.Keys;
    while left != {}
      invariant left <= fs.Keys && NoDuplicates(names)
      invariant forall k :: k in names <==> k in fs.Keys - left && Enabled(fs[k])
      decreases left
    {
      var name :| name in left;
      assert name !in names;
      left := left - {name};
      if Enabled(fs[name]) {
        names := names + [name];
      }
    }
  }

  predicate Resourceful(fs: Features) {
    RESOURCE in fs && Enabled(fs[RESOURCE])
  }

  method FixFeatures(fs: Features) returns (r: Features)
    ensures r == Fixed(fs)
  {
    r := fs;
    var left := fs.Keys;
    while left != {}
      invariant left <= fs.Keys == r.Keys
      invariant forall k :: k in r ==> r[k] == if k in left then fs[k] else FixConf(fs[k])
      decreases left
    {
      var k :| k in left;
      left := left - {k};
      r := r[k := FixConf(r[k])];
    }
  }

  lemma FixedResource(fs: Features)
    ensures Resourceful(Fixed(fs[RESOURCE := None]))
  {}

  /** Filling in the missing entries does not change what is enabled. */
  lemma FixKeepsEnabled(fs: Features)
    ensures EnabledNames(Fixed(fs)) == EnabledNames(fs)
    ensures forall k :: k in fs ==> Fixed(fs)[k].Some? && ENABLED in Fixed(fs)[k].value
  {
    assert forall k :: k in fs ==> (Enabled(FixConf(fs[k])) <==> Enabled(fs[k]));
  }

  lemma EnabledAfterLoad(fs: Features)
    ensures EnabledNames(Fixed(fs[RESOURCE := None])) == EnabledNames(fs) + {RESOURCE}
  {
    FixKeepsEnabled(fs[RESOURCE := None]);
    assert forall k :: k in fs && k != RESOURCE ==> fs[RESOURCE := None][k] == fs[k];
  }

  // The options of a feature after loading: those given, and "enabled", true where it was not given.
  predicate Completes(given: FeatureConf, conf: FeatureConf) {
    && conf.Some? && "enabled" in conf.value
    && conf.value["enabled"] ==
       (if given.Some? && "enabled" in given.value then given.value["enabled"] else Bool(true))
    && (forall o :: o in conf.value && o != "enabled" ==>
          given.Some? && o in given.value && conf.value[o] == given.value[o])
    && (given.Some? ==> forall o :: o in given.value ==> o in conf.value)
  }

  /** Completing a feature map keeps its keys and every option given, and turns nothing on or off. */
  lemma FixedOptions(fs: Features, k: string)
    ensures Fixed(fs).Keys == fs.Keys
    ensures k in fs ==> Completes(fs[k], Fixed(fs)[k]) && (k in EnabledNames(fs) <==> !SwitchedOff(fs[k]))
  {}

  /** Where a device stands after the disabled ones are dropped: the others keep their order. */
  lemma {:induction false} DevicesKept(devices: seq<Device>, i: nat)
    requires i < |devices|
    ensures |EnabledDevices(devices[..i + 1])| ==
            |EnabledDevices(devices[..i])| + if devices[i].disabled then 0 else 1
    ensures !devices[i].disabled ==>
              var w := |EnabledDevices(devices[..i])|;
              w < |EnabledDevices(devices)| && EnabledDevices(devices)[w] == devices[i]
    ensures |EnabledDevices(devices[..i + 1])| <= |EnabledDevices(devices)|
  {
    assert devices[..i + 1][..i] == devices[..i];
    var last := |devices| - 1;
    if i < last {
      DevicesKept(devices[..last], i);
      assert devices[..last][..i] == devices[..i] && devices[..last][..i + 1] == devices[..i + 1];
    } else {
      assert devices[..i + 1] == devices;
    }
  }

  lemma {:induction false} EnabledAre(devices: seq<Device>, d: Device)
    ensures d in EnabledDevices(devices) <==> d in devices && !d.disabled
  {
    if devices != [] {
      var last := |devices| - 1;
      EnabledAre(devices[..last], d);
      assert devices == devices[..last] + [devices[last]];
    }
  }

  /** What a configuration file must satisfy to be accepted, field by field. */
  lemma AcceptableMeans(c: Decoded, collectors: set<string>, lower: string -> string)
    ensures Acceptable(c, collectors, lower) <==>
            && (collectors != {} && c.features.Some? ==> forall k :: k in c.features.value ==> lower(k) in collectors)
            && (forall p :: p in c.profiles ==> c.profiles[p].Some?)
            && (collectors != {} ==>
                  forall p, k :: p in c.profiles && c.profiles[p].Some? && k in c.profiles[p].value ==>
                    lower(k) in collectors)
            && (forall d :: d in c.devices && !d.disabled ==>
                  && (d.hasSrv ==> d.record != "") && (!d.hasSrv ==> d.name != "" && d.address != "")
                  && d.user != "" && d.password != "" && (d.profile == "" || d.profile in c.profiles))
  {
    forall d ensures d in EnabledDevices(c.devices) <==> d in c.devices && !d.disabled {
      EnabledAre(c.devices, d);
    }
    hide EnabledDevices;
  }

  // A device's share of all enabled features: the default ones without a profile, else those of its name.
  predicate Contributes(features: Features, profiles: map<string, Features>, devices: seq<Device>, i: nat, k: string)
    requires i < |devices|
  {
    if devices[i].profile == "" then k in features && !SwitchedOff(features[k])
    else
      var fs := DeviceFeatures(features, profiles, devices, devices[i].name);
      fs.Some? && k in fs.value && !SwitchedOff(fs.value[k])
  }

  /** All enabled features are exactly those that some device contributes. */
  lemma {:induction false} AllEnabledAre(features: Features, profiles: map<string, Features>, devices: seq<Device>,
                                         n: nat, k: string)
    requires n <= |devices|
    ensures k in AllEnabled(features, profiles, devices, n) <==>
            exists i :: 0 <= i < n && Contributes(features, profiles, devices, i, k)
  {
    if n > 0 {
      AllEnabledAre(features, profiles, devices, n - 1, k);
      assert k in AllEnabled(features, profiles, devices, n) <==>
             k in AllEnabled(features, profiles, devices, n - 1) ||
             Contributes(features, profiles, devices, n - 1, k);
    }
  }

  const SHARED: Decoded := Decoded(Some(map[]), map["lan" := Some(map["dhcp" := None])],
      [Device("router", "", false, "", "10.0.0.1", "user", "password", false),
       Device("router", "lan", false, "", "10.0.0.2", "user", "password", false)])

  /** Two devices with one name, of which the second asks for "dhcp": the file is accepted and it does not get it. */
  lemma SharedName(lower: string -> string, features: Features, profiles: map<string, Features>, devices: seq<Device>)
    requires lower("dhcp") == "dhcp" && LoadedFrom(SHARED, features, profiles, devices)
    ensures Acceptable(SHARED, {"dhcp", RESOURCE}, lower)
    ensures devices == SHARED.devices
    ensures EnabledNames(Own(features, profiles, devices[1])) == {"dhcp", RESOURCE}
    ensures var fs := DeviceFeatures(features, profiles, devices, "router");
            fs.Some? && EnabledNames(fs.value) == {RESOURCE}
  {
    hide Fixed, EnabledNames, ValidFeatures, EnabledDevices, Acceptable;
    SharedAccepted(lower);
    EnabledAfterLoad(map[]);
    EnabledAfterLoad(map["dhcp" := None]);
    EnabledDhcp();
  }

  lemma EnabledDhcp()
    ensures EnabledNames(map[]) == {} && EnabledNames(map["dhcp" := None]) == {"dhcp"}
  {}

  lemma SharedEnabled()
    ensures EnabledDevices(SHARED.devices) == SHARED.devices
  {
    var ds := SHARED.devices;
    assert ds[..1][..0] == [] && ds[..1] == [ds[0]];
    assert EnabledDevices(ds[..1]) == [ds[0]];
    assert EnabledDevices(ds) == [ds[0]] + [ds[1]] == ds;
  }

  lemma SharedAccepted(lower: string -> string)
    requires lower("dhcp") == "dhcp"
    ensures EnabledDevices(SHARED.devices) == SHARED.devices
    ensures Acceptable(SHARED, {"dhcp", RESOURCE}, lower)
  {
    hide EnabledDevices;
    SharedEnabled();
  }
}

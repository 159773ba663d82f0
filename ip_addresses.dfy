/** Device name -> network address(es). Two tables exist: the evaluation
    side's two-device table returning one address (common_modules/ip_addresses.py)
    and the training side's 24-device table returning a list (ip_addresses.py). */
module DeviceAddresses {
  import opened Wrappers
  import opened Text
  import opened Lookup

  const AddressTable: Table<string> := [
    ("tplink-tapo-camera", "192.168.1.153"),
    ("sonos-smart-speaker", "192.168.1.173")
  ]

  /** get_ip_address: the address of the first device pattern occurring in
      the lower-cased name; None stands for the sentinel -1. */
  function GetIpAddress(deviceName: string): (address: Option<string>)
    ensures address.None? <==> !Contains(Lower(deviceName), "tplink-tapo-camera")
                               && !Contains(Lower(deviceName), "sonos-smart-speaker")
  {
    FirstMatchNone(AddressTable, Lower(deviceName));
    FirstMatch(AddressTable, Lower(deviceName))
  }

  /** The camera's pattern is listed first, so it wins whatever else occurs. */
  lemma CameraAddress(deviceName: string)
    requires Contains(Lower(deviceName), "tplink-tapo-camera")
    ensures GetIpAddress(deviceName) == Some("192.168.1.153")
  {
    FirstMatchAt(AddressTable, Lower(deviceName), 0);
  }

  lemma SpeakerAddress(deviceName: string)
    requires Contains(Lower(deviceName), "sonos-smart-speaker")
    requires !Contains(Lower(deviceName), "tplink-tapo-camera")
    ensures GetIpAddress(deviceName) == Some("192.168.1.173")
  {
    FirstMatchAt(AddressTable, Lower(deviceName), 1);
  }

  /** The case of the device name does not matter. */
  lemma CaseIgnored(deviceName: string)
    ensures GetIpAddress(deviceName) == GetIpAddress(Lower(deviceName))
  {
    LowerIdempotent(deviceName);
  }

  lemma MixedCaseCamera()
    ensures GetIpAddress("TPLink-Tapo-Camera") == Some("192.168.1.153")
  {
    assert Lower("TPLink-Tapo-Camera") == "tplink-tapo-camera";
    ContainsSlice("tplink-tapo-camera", "tplink-tapo-camera", 0);
    CameraAddress("TPLink-Tapo-Camera");
  }
}

module RootDeviceAddresses {
  import opened Wrappers
  import opened Text
  import opened Lookup

  const AddressTable: Table<seq<string>> := [
    ("amazon-plug", ["192.168.1.189"]),
    ("blossom-sprinkler", ["192.168.1.229", "192.168.1.246"]),
    ("dlink-plug", ["192.168.1.199", "192.168.1.246"]),
    ("dlink-siren", ["192.168.1.246"]),
    ("ecobee-thermostat", ["192.168.1.130"]),
    ("hue-bulb", ["192.168.1.100"]),
    ("kwikset-doorlock", ["192.168.1.246"]),
    ("nest-thermostat", ["192.168.1.246"]),
    ("rachio-sprinkler", ["192.168.1.143"]),
    ("ring-alarm", ["192.168.1.113"]),
    ("roomba-vacuum-robot", ["192.168.1.246"]),
    ("sengled-bulb", ["192.168.1.246", "192.168.1.201"]),
    ("st-plug", ["192.168.1.246"]),
    ("tplink-bulb", ["192.168.1.246"]),
    ("tplink-plug", ["192.168.1.159"]),
    ("wemo-insight-plug", ["192.168.1.246"]),
    ("wemo-plug", ["192.168.1.246"]),
    ("blink-camera", ["192.168.1.228"]),
    ("google-home", ["10.42.0.179", "192.168.42.120"]),
    ("arlo-camera", ["192.168.1.246", "10.42.0.31"]),
    ("echo-dot", ["10.42.0.114"]),
    ("echo", ["192.168.42.74"]),
    ("omna-camera", ["10.42.0.32"]),
    ("samsung-tv", ["192.168.42.65"])
  ]

  /** get_ip_address of ip_addresses.py: the address list of the first
      device pattern occurring in the lower-cased name; None stands for -1.
      Every list it returns holds one or two addresses. */
  function GetIpAddress(deviceName: string): (addresses: Option<seq<string>>)
    ensures addresses.None? <==> forall i :: 0 <= i < |AddressTable| ==> !Contains(Lower(deviceName), AddressTable[i].0)
    ensures addresses.Some? ==> 1 <= |addresses.value| <= 2
  {
    FirstMatchNone(AddressTable, Lower(deviceName));
    var r := FirstMatch(AddressTable, Lower(deviceName));
    assert r.Some? ==> 1 <= |r.value| <= 2 by {
      if r.Some? {
        FirstMatchSome(AddressTable, Lower(deviceName));
        OneOrTwoAddresses();
      }
    }
    r
  }

  lemma OneOrTwoAddresses()
    ensures forall i :: 0 <= i < |AddressTable| ==> 1 <= |AddressTable[i].1| <= 2
  {
    forall i | 0 <= i < |AddressTable| ensures 1 <= |AddressTable[i].1| <= 2 {
      if i < 6 {
        if i == 0 {} else if i == 1 {} else if i == 2 {} else if i == 3 {} else if i == 4 {} else {}
      } else if i < 12 {
        if i == 6 {} else if i == 7 {} else if i == 8 {} else if i == 9 {} else if i == 10 {} else {}
      } else if i < 18 {
        if i == 12 {} else if i == 13 {} else if i == 14 {} else if i == 15 {} else if i == 16 {} else {}
      } else {
        if i == 18 {} else if i == 19 {} else if i == 20 {} else if i == 21 {} else if i == 22 {} else {}
      }
    }
  }

  /** 'echo-dot' is listed before 'echo', so an Echo Dot gets its own address
      although 'echo' occurs in its name too. */
  lemma EchoDot()
    ensures Contains("echo-dot", "echo")
    ensures GetIpAddress("echo-dot") == Some(["10.42.0.114"])
  {
    var s := "echo-dot";
    assert Lower(s) == s;
    ContainsSlice(s, "echo", 0);
    ContainsSlice(s, "echo-dot", 0);
    assert !Contains(s, "hue-bulb");
    assert !Contains(s, "st-plug");
    forall i | 0 <= i < 20 ensures !Contains(s, AddressTable[i].0) {
      if i != 5 && i != 12 {
        assert |AddressTable[i].0| > |s|;
      }
    }
    FirstMatchAt(AddressTable, s, 20);
  }

  /** A name in which 'echo' is the first listed pattern to occur resolves to
      the Echo's address. */
  lemma Echo(deviceName: string)
    requires Contains(Lower(deviceName), "echo")
    requires forall i :: 0 <= i < 21 ==> !Contains(Lower(deviceName), AddressTable[i].0)
    ensures GetIpAddress(deviceName) == Some(["192.168.42.74"])
  {
    FirstMatchAt(AddressTable, Lower(deviceName), 21);
  }

  lemma BlossomSprinklerIsLowercase()
    ensures Lower("blossom-sprinkler") == "blossom-sprinkler"
  {
    LowerOfLowercase("blossom-sprinkler");
  }

  /** The sprinkler resolves to its two addresses. */
  lemma BlossomSprinkler()
    ensures GetIpAddress("blossom-sprinkler") == Some(["192.168.1.229", "192.168.1.246"])
  {
    BlossomSprinklerIsLowercase();
    assert !Contains("blossom-sprinkler", "amazon-plug") by {
      var s, p := "blossom-sprinkler", "amazon-plug";
      assert !OccursFrom(s, p, 7);
      assert !OccursFrom(s, p, 4);
      assert !OccursFrom(s, p, 0);
    }
    ContainsSlice("blossom-sprinkler", "blossom-sprinkler", 0);
    FirstMatchAt(AddressTable, "blossom-sprinkler", 1);
  }

  /** The case of the device name does not matter. */
  lemma CaseIgnored(deviceName: string)
    ensures GetIpAddress(deviceName) == GetIpAddress(Lower(deviceName))
  {
    LowerIdempotent(deviceName);
  }
}

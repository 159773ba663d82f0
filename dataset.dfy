/** The body of read_training_files (dataset_formatter.py): for every
    capture file of the training tree, work out the device, the activity and
    the file's index from its path, find the matching activity marker, and
    turn the flow read around that marker into one feature row and one
    label. */
module DatasetFormatter {
  import opened Wrappers
  import opened Text
  import opened Packets
  import opened Civil
  import opened Timestamps
  import Features
  import RootFeatures
  import RootFlowLabeling
  import RootDeviceAddresses

  // ---------------------------------------------------------------------
  // The file index: re.match(r"(.+?)(\d+)\.pcapng", name).group(2)

  predicate StartsWith(s: string, prefix: string)
  {
    |prefix| <= |s| && s[..|prefix|] == prefix
  }

  const Extension := ".pcapng"

  /** The regular expression with its lazy first group holding name[..i]:
      the first i (from 1 on) after which a run of digits is followed by
      the extension decides the match. The digit run is taken whole, since
      a shorter one would leave a digit where the dot must be. `.` does not
      match a newline, so no longer first group exists past one. */
  function FileIndexFrom(name: string, ext: string, i: nat): (r: Option<nat>)
    requires i >= 1
    decreases |name| - i
  {
    if i >= |name| || name[i - 1] == '\n' then None
    else
      var k := DigitRun(name[i..]);
      if k >= 1 && StartsWith(name[i + k..], ext) then Some(NumberValue(name[i..i + k]))
      else FileIndexFrom(name, ext, i + 1)
  }

  /** int(group 2) of the match, or None when re.match finds nothing (the
      code then fails on None.group). */
  function FileIndex(name: string): Option<nat>
  {
    FileIndexFrom(name, Extension, 1)
  }

  /** A name made of a non-empty prefix without newlines and with no digit
      after its first character, a run of digits and ".pcapng" yields the
      value of that run. */
  lemma FileIndexOfName(prefix: string, digits: string)
    requires |prefix| >= 1 && |digits| >= 1
    requires forall i :: 0 <= i < |prefix| ==> prefix[i] != '\n'
    requires forall i :: 1 <= i < |prefix| ==> !IsDigit(prefix[i])
    requires forall i :: 0 <= i < |digits| ==> IsDigit(digits[i])
    ensures FileIndex(prefix + digits + Extension) == Some(NumberValue(digits))
  {
    assert Extension != [] && !IsDigit(Extension[0]);
    MatchOfName(prefix, digits, Extension);
  }

  lemma MatchOfName(prefix: string, digits: string, ext: string)
    requires |prefix| >= 1 && |digits| >= 1 && ext != [] && !IsDigit(ext[0])
    requires forall i :: 0 <= i < |prefix| ==> prefix[i] != '\n'
    requires forall i :: 1 <= i < |prefix| ==> !IsDigit(prefix[i])
    requires forall i :: 0 <= i < |digits| ==> IsDigit(digits[i])
    ensures FileIndexFrom(prefix + digits + ext, ext, 1) == Some(NumberValue(digits))
  {
    var name := prefix + digits + ext;
    var i := |prefix|;
    assert name[..i] == prefix;
    assert name[i..] == digits + ext;
    MatchAt(name, i, digits, ext);
    SkipPrefix(name, ext, prefix, i);
  }

  /** Where the digits and the extension follow a first group without
      newline, the match ends there. */
  lemma MatchAt(name: string, i: nat, digits: string, ext: string)
    requires 1 <= i <= |name| && name[i - 1] != '\n'
    requires ext != [] && !IsDigit(ext[0]) && name[i..] == digits + ext
    requires |digits| >= 1 && forall j :: 0 <= j < |digits| ==> IsDigit(digits[j])
    ensures FileIndexFrom(name, ext, i) == Some(NumberValue(digits))
  {
    var k := |digits|;
    assert name[i..i + k] == digits by {
      assert name[i..i + k] == name[i..][..k];
    }
    MatchEnds(name, i, k, ext) by {
      DigitRunOfDigits(digits, ext);
      assert name[i + k..] == name[i..][k..];
    }
  }

  lemma MatchEnds(name: string, i: nat, k: nat, ext: string)
    requires 1 <= i < |name| && name[i - 1] != '\n'
    requires k >= 1 && DigitRun(name[i..]) == k && StartsWith(name[i + k..], ext)
    ensures FileIndexFrom(name, ext, i) == Some(NumberValue(name[i..i + k]))
  {
  }

  /** No first group shorter than the prefix leads to a match. */
  lemma {:induction false} SkipPrefix(name: string, ext: string, prefix: string, j: nat)
    requires 1 <= j <= |prefix| <= |name| && name[..|prefix|] == prefix
    requires forall i :: 0 <= i < |prefix| ==> prefix[i] != '\n'
    requires forall i :: 1 <= i < |prefix| ==> !IsDigit(prefix[i])
    ensures FileIndexFrom(name, ext, 1) == FileIndexFrom(name, ext, j)
    decreases j
  {
    if j > 1 {
      var i := j - 1;
      assert name[i] == prefix[i] && name[i - 1] == prefix[i - 1];
      assert DigitRun(name[i..]) == 0;
      SkipPrefix(name, ext, prefix, i);
    }
  }

  lemma FileIndexExamples()
    ensures FileIndex("ab12.pcapng") == Some(12)
    ensures FileIndex("123.pcapng") == Some(23)
  {
    FileIndexOfName("ab", "12");
    assert "ab" + "12" + ".pcapng" == "ab12.pcapng";
    assert NumberValue("12") == 12 by {
      assert "12"[..1] == "1";
    }
    FileIndexOfName("1", "23");
    assert "1" + "23" + ".pcapng" == "123.pcapng";
    assert NumberValue("23") == 23 by {
      assert "23"[..1] == "2";
    }
  }

  /** The first group needs a character of its own, so a name that is only
      a number and the extension does not match. */
  lemma SingleDigitName()
    ensures FileIndex("1.pcapng") == None
  {
    var name := "1.pcapng";
    forall i | 1 <= i < |name| ensures !IsDigit(name[i]) {
    }
    NoIndexFrom(name, Extension, 1);
  }

  lemma {:induction false} NoIndexFrom(name: string, ext: string, i: nat)
    requires i >= 1
    requires forall j :: 1 <= j < |name| ==> !IsDigit(name[j])
    ensures FileIndexFrom(name, ext, i) == None
    decreases |name| - i
  {
    if i < |name| && name[i - 1] != '\n' {
      assert DigitRun(name[i..]) == 0;
      NoIndexFrom(name, ext, i + 1);
    }
  }

  // ---------------------------------------------------------------------
  // Python indexing and path components

  /** xs[j] with Python's negative indices; None stands for IndexError. */
  function PyIndex<T>(xs: seq<T>, j: int): (r: Option<T>)
    ensures r.Some? <==> -|xs| <= j < |xs|
  {
    if 0 <= j < |xs| then Some(xs[j])
    else if -|xs| <= j < 0 then Some(xs[|xs| + j])
    else None
  }

  /** activity_timestamps[file_index - 1]: file indices count from 1, and
      index 0 wraps round to the last marker. */
  lemma MarkerOfIndex<T>(markers: seq<T>, index: nat)
    ensures 1 <= index <= |markers| ==> PyIndex(markers, index - 1) == Some(markers[index - 1])
    ensures index == 0 && markers != [] ==> PyIndex(markers, index - 1) == Some(markers[|markers| - 1])
    ensures index > |markers| ==> PyIndex(markers, index - 1) == None
  {
  }

  /** path.split('/')[j] */
  function Component(path: string, j: int): Option<string>
  {
    PyIndex(Split(path, '/'), j)
  }

  /** In a path built from separator-free components, [-4] is the device
      directory and [-3] the activity directory. */
  lemma DeviceAndActivity(parts: seq<string>)
    requires |parts| >= 4 && forall i :: 0 <= i < |parts| ==> '/' !in parts[i]
    ensures Component(Join(parts, '/'), -4) == Some(parts[|parts| - 4])
    ensures Component(Join(parts, '/'), -3) == Some(parts[|parts| - 3])
  {
    SplitJoin(parts, '/');
  }

  /** os.path.join(root, name) for a file name without separators. */
  function JoinPath(root: string, name: string): string
  {
    if root == [] then name
    else if root[|root| - 1] == '/' then root + name
    else root + "/" + name
  }

  // ---------------------------------------------------------------------
  // One capture file

  /** What the loop body reads from outside the model: the markers of each
      activity (read_timestamp_files), the packets of a capture around a
      marker (_read_pcapng_files, which utilities.py does not define), the
      zone and local-time rules of convert_timestamp, the estimators of the
      feature row, and delta. */
  datatype Environment = Environment(
    markers: map<string, seq<string>>,
    readPackets: (string, seq<string>, real, real) -> seq<Packet>,
    losAngeles: Zone,
    localTimestamp: DateTime -> real,
    est: Features.Estimators,
    delta: real)

  /** Why a run ends: an uncaught exception or sys.exit(1). */
  datatype Fatal =
    | PathTooShort(path: string)
    | NoMarkers(activity: string)
    | NoFileIndex(name: string)
    | UnknownDevice(device: string)
    | NoMarkerAt(index: nat)
    | BadTimestamp(reason: TimeError)
    | NoIpLayer(path: string)
    | UnknownActivity(activity: string)

  /** One feature row, as compute_statistical_features returns it. */
  type FeatureRow = seq<Features.Value>

  /** What a file adds: nothing, or one row and its label. */
  datatype Flow = Dropped | Accepted(row: FeatureRow, flowLabel: int)

  /** The values compared in `packet[IP].src == device_ip_address`. */
  datatype PyValue = PyStr(text: string) | PyStrList(items: seq<string>)

  /** How a packet address is compared with the device's addresses: as
      written, a string against the list get_ip_address returns (Python's
      == on values of different types); as intended, membership. */
  datatype AddressTest = AsWritten | Intended

  predicate SameDevice(test: AddressTest, address: string, addresses: seq<string>)
  {
    match test
    case AsWritten => PyStr(address) == PyStrList(addresses)
    case Intended => address in addresses
  }

  predicate SentBy(p: Packet, test: AddressTest, addresses: seq<string>)
  {
    p.ip.Some? && SameDevice(test, p.ip.value.src, addresses)
  }

  predicate SentTo(p: Packet, test: AddressTest, addresses: seq<string>)
  {
    p.ip.Some? && SameDevice(test, p.ip.value.dst, addresses)
  }

  /** Lines 74-76: the packets the device sent. */
  function Outgoing(packets: seq<Packet>, test: AddressTest, addresses: seq<string>): (r: seq<Packet>)
    ensures r == [] <==> forall i :: 0 <= i < |packets| ==> !SentBy(packets[i], test, addresses)
    ensures test == AsWritten ==> r == []
  {
    FilterEmpty(packets, (p: Packet) => SentBy(p, test, addresses));
    Filter(packets, (p: Packet) => SentBy(p, test, addresses))
  }

  /** Lines 77-79: the packets sent to the device. */
  function Incoming(packets: seq<Packet>, test: AddressTest, addresses: seq<string>): (r: seq<Packet>)
    ensures r == [] <==> forall i :: 0 <= i < |packets| ==> !SentTo(packets[i], test, addresses)
  {
    FilterEmpty(packets, (p: Packet) => SentTo(p, test, addresses));
    Filter(packets, (p: Packet) => SentTo(p, test, addresses))
  }

  predicate AllIp(packets: seq<Packet>)
  {
    forall i :: 0 <= i < |packets| ==> packets[i].ip.Some?
  }

  /** Lines 71-98: an empty flow, or one without outgoing or without
      incoming packets, is dropped; packet[IP] fails on a packet without an
      IP layer; an accepted flow whose activity has no label ends the run. */
  function FlowOf(path: string, packets: seq<Packet>, addresses: seq<string>, activity: string,
                  est: Features.Estimators, test: AddressTest): (r: Result<Flow, Fatal>)
    ensures r == Success(Dropped) <==>
              packets == []
              || (AllIp(packets)
                  && ((forall i :: 0 <= i < |packets| ==> !SentBy(packets[i], test, addresses))
                      || (forall i :: 0 <= i < |packets| ==> !SentTo(packets[i], test, addresses))))
    ensures r.Success? && r.value.Accepted? ==>
              test == Intended
              && |r.value.row| == 39 && r.value.flowLabel == RootFlowLabeling.GetFlowLabel(activity)
              && 0 <= r.value.flowLabel <= 5
    ensures r.Success? && r.value.Accepted? ==>
              var outgoing, incoming := Outgoing(packets, test, addresses), Incoming(packets, test, addresses);
              |packets| > 0 && |outgoing| > 0 && |incoming| > 0
              && r.value.row == RootFeatures.ComputeStatisticalFeatures(packets, incoming, outgoing, est)
    ensures r.Success? && r.value.Accepted? ==> AllIp(packets)
    ensures packets != [] && !AllIp(packets) ==> r == Failure(NoIpLayer(path))
    ensures r.Failure? ==> r.error == NoIpLayer(path) || r.error == UnknownActivity(activity)
  {
    if packets == [] then Success(Dropped)
    else if !AllIp(packets) then Failure(NoIpLayer(path))
    else
      var outgoing := Outgoing(packets, test, addresses);
      var incoming := Incoming(packets, test, addresses);
      if outgoing == [] || incoming == [] then Success(Dropped)
      else
        var row := RootFeatures.ComputeStatisticalFeatures(packets, incoming, outgoing, est);
        var flowLabel := RootFlowLabeling.GetFlowLabel(activity);
        if flowLabel == -1 then Failure(UnknownActivity(activity)) else Success(Accepted(row, flowLabel))
  }

  /** The row of an accepted flow counts the flow's packets, the device's
      packets and the packets sent to it in columns 22, 24 and 25. */
  lemma AcceptedRowCounts(path: string, packets: seq<Packet>, addresses: seq<string>, activity: string,
                          est: Features.Estimators, test: AddressTest)
    requires FlowOf(path, packets, addresses, activity, est, test).Success?
    requires FlowOf(path, packets, addresses, activity, est, test).value.Accepted?
    ensures var row := FlowOf(path, packets, addresses, activity, est, test).value.row;
            |row| == 39
            && row[22] == Features.Num(|packets| as real)
            && row[24] == Features.Num(|Outgoing(packets, test, addresses)| as real)
            && row[25] == Features.Num(|Incoming(packets, test, addresses)| as real)
  {
    RootFeatures.SameRows(packets, Incoming(packets, test, addresses), Outgoing(packets, test, addresses), est);
  }

  /** Lines 40-98 for one file: the checks run in the code's order, each
      failing one ending the run. */
  function ProcessFile(root: string, name: string, env: Environment, test: AddressTest): (r: Result<Flow, Fatal>)
    ensures r.Success? && r.value.Accepted? ==>
              test == Intended && |r.value.row| == 39 && 0 <= r.value.flowLabel <= 5
  {
    var path := JoinPath(root, name);
    match Component(path, -3)
    case None => Failure(PathTooShort(path))
    case Some(activity) =>
      if activity !in env.markers then Failure(NoMarkers(activity))
      else match Component(path, -4)
      case None => Failure(PathTooShort(path))
      case Some(device) =>
        match FileIndex(name)
        case None => Failure(NoFileIndex(name))
        case Some(index) =>
          match RootDeviceAddresses.GetIpAddress(device)
          case None => Failure(UnknownDevice(device))
          case Some(addresses) => MarkedFlow(path, addresses, activity, index, env, test)
  }

  /** Line 65: the marker as an instant, or the failure of convert_timestamp. */
  function MarkerInstant(text: string, env: Environment): (r: Result<real, Fatal>)
    ensures r.Failure? <==> RootConvertTimestamp(text, env.losAngeles, env.localTimestamp).Failure?
    ensures r.Failure? ==> r.error == BadTimestamp(RootConvertTimestamp(text, env.losAngeles, env.localTimestamp).error)
    ensures r.Success? ==> r.value == RootConvertTimestamp(text, env.losAngeles, env.localTimestamp).value
  {
    match RootConvertTimestamp(text, env.losAngeles, env.localTimestamp)
    case Failure(e) => Failure(BadTimestamp(e))
    case Success(marker) => Success(marker)
  }

  /** Lines 62-98, once the device's addresses are known: the file's
      marker, its instant, and the flow read around it. */
  function MarkedFlow(path: string, addresses: seq<string>, activity: string, index: nat,
                      env: Environment, test: AddressTest): (r: Result<Flow, Fatal>)
    requires activity in env.markers
    ensures r.Success? && r.value.Accepted? ==>
              test == Intended && |r.value.row| == 39 && 0 <= r.value.flowLabel <= 5
  {
    match PyIndex(env.markers[activity], index - 1)
    case None => Failure(NoMarkerAt(index))
    case Some(text) =>
      match MarkerInstant(text, env)
      case Failure(e) => Failure(e)
      case Success(marker) =>
        var packets := env.readPackets(path, addresses, marker, env.delta);
        FlowOf(path, packets, addresses, activity, env.est, test)
  }

  /** A device the address table does not know ends the run, whatever the
      file holds. */
  lemma UnknownDeviceIsFatal(root: string, name: string, env: Environment, test: AddressTest)
    requires var path := JoinPath(root, name);
             Component(path, -4).Some? && Component(path, -3).Some?
             && Component(path, -3).value in env.markers
             && FileIndex(name).Some?
             && RootDeviceAddresses.GetIpAddress(Component(path, -4).value).None?
    ensures ProcessFile(root, name, env, test) == Failure(UnknownDevice(Component(JoinPath(root, name), -4).value))
  {
  }

  // ---------------------------------------------------------------------
  // The loop over the files

  datatype Dataset = Dataset(features: seq<FeatureRow>, labels: seq<int>)

  /** The outcome after the files so far (os.walk order, as (root, name)
      pairs): files not ending in ".pcapng" are skipped, a dropped flow adds
      nothing, an accepted one adds its row and its label. */
  function TrainingSet(files: seq<(string, string)>, env: Environment, test: AddressTest): Result<Dataset, Fatal>
    decreases |files|
  {
    if files == [] then Success(Dataset([], []))
    else
      match TrainingSet(files[..|files| - 1], env, test)
      case Failure(e) => Failure(e)
      case Success(ds) =>
        var file := files[|files| - 1];
        if !EndsWith(file.1, ".pcapng") then Success(ds)
        else match ProcessFile(file.0, file.1, env, test)
        case Failure(e) => Failure(e)
        case Success(Dropped) => Success(ds)
        case Success(Accepted(row, flowLabel)) => Success(Dataset(ds.features + [row], ds.labels + [flowLabel]))
  }

  /** A fatal error stays the outcome whatever files follow. */
  lemma {:induction false} FailureSticks(files: seq<(string, string)>, k: nat, env: Environment, test: AddressTest)
    requires k <= |files| && TrainingSet(files[..k], env, test).Failure?
    ensures TrainingSet(files, env, test) == TrainingSet(files[..k], env, test)
    decreases |files| - k
  {
    if k < |files| {
      assert files[..k + 1][..k] == files[..k];
      FailureSticks(files, k + 1, env, test);
    } else {
      assert files[..k] == files;
    }
  }

  /** read_training_files with the address comparison as intended. */
  method ReadTrainingFiles(files: seq<(string, string)>, env: Environment) returns (result: Result<Dataset, Fatal>)
    ensures result == TrainingSet(files, env, Intended)
  {
    var features: seq<FeatureRow> := [];
    var labels: seq<int> := [];
    for k := 0 to |files|
      invariant TrainingSet(files[..k], env, Intended) == Success(Dataset(features, labels))
    {
      assert files[..k + 1][..k] == files[..k];
      var (root, name) := files[k];
      if EndsWith(name, ".pcapng") {
        var outcome := ProcessFile(root, name, env, Intended);
        match outcome
        case Failure(e) =>
          FailureSticks(files, k + 1, env, Intended);
          return Failure(e);
        case Success(Dropped) =>
        case Success(Accepted(row, flowLabel)) =>
          labels := labels + [flowLabel];
          features := features + [row];
      }
    }
    assert files[..|files|] == files;
    return Success(Dataset(features, labels));
  }

  /** Rows and labels grow in lockstep: every row has the 39 columns and
      every flowLabel is one of the six activities. */
  lemma {:induction false} Lockstep(files: seq<(string, string)>, env: Environment, test: AddressTest)
    requires TrainingSet(files, env, test).Success?
    ensures var ds := TrainingSet(files, env, test).value;
            |ds.features| == |ds.labels|
            && (forall i :: 0 <= i < |ds.features| ==> |ds.features[i]| == 39)
            && (forall i :: 0 <= i < |ds.labels| ==> 0 <= ds.labels[i] <= 5)
    decreases |files|
  {
    if files != [] {
      Lockstep(files[..|files| - 1], env, test);
    }
  }

  // ---------------------------------------------------------------------
  // The address comparison as written

  /** A flow with one packet each way between the device and a peer: as
      intended it adds a row, as written it is dropped. */
  lemma AsWrittenDropsTwoWayFlow(path: string, device: string, peer: string, activity: string,
                                 est: Features.Estimators)
    requires RootFlowLabeling.GetFlowLabel(activity) != -1
    ensures var packets := [Packet(0.0, 60, Some(IpHeader(device, peer))),
                            Packet(1.0, 60, Some(IpHeader(peer, device)))];
            FlowOf(path, packets, [device], activity, est, Intended).Success?
            && FlowOf(path, packets, [device], activity, est, Intended).value.Accepted?
            && FlowOf(path, packets, [device], activity, est, AsWritten) == Success(Dropped)
  {
    var packets := [Packet(0.0, 60, Some(IpHeader(device, peer))),
                    Packet(1.0, 60, Some(IpHeader(peer, device)))];
    IntendedAcceptsFlow(path, packets, [device], activity, est, 0, 1);
  }

  /** As written the training set is always empty. */
  lemma {:induction false} AsWrittenTrainingSetEmpty(files: seq<(string, string)>, env: Environment)
    requires TrainingSet(files, env, AsWritten).Success?
    ensures TrainingSet(files, env, AsWritten).value == Dataset([], [])
    decreases |files|
  {
    if files != [] {
      AsWrittenTrainingSetEmpty(files[..|files| - 1], env);
    }
  }

  /** As intended, a flow with an IP layer on every packet, a packet sent by
      the device and one sent to it, and a known activity adds a row. */
  lemma IntendedAcceptsFlow(path: string, packets: seq<Packet>, addresses: seq<string>, activity: string,
                            est: Features.Estimators, i: nat, j: nat)
    requires AllIp(packets) && i < |packets| && j < |packets|
    requires packets[i].ip.value.src in addresses && packets[j].ip.value.dst in addresses
    requires RootFlowLabeling.GetFlowLabel(activity) != -1
    ensures FlowOf(path, packets, addresses, activity, est, Intended).Success?
    ensures FlowOf(path, packets, addresses, activity, est, Intended).value.Accepted?
  {
    assert SentBy(packets[i], Intended, addresses) && SentTo(packets[j], Intended, addresses);
  }
}

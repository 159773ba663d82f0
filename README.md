# Smart-home traffic features, modelled in Dafny

This project models the deterministic core of a pipeline that turns packet
captures of smart-home devices into labelled feature rows for activity
classifiers. It has five parts:

- **Lookup tables** (`lookup.dfy`, `flow_labeling.dfy`, `ip_addresses.dfy`).
  Device name → address(es), activity name → label, and label → name. Each
  forward lookup lower-cases the name and returns the value of the first
  listed pattern that occurs in it, or the sentinel `-1` (here `None`). One
  generic `FirstMatch` serves all of them. Both copies of each table are
  modelled: the evaluation side's (`common_modules/`) and the training
  side's (repository root).
- **The 39-column feature row** (`stats.dfy`, `features.dfy`). The row of
  `compute_statistical_features`, with its statistics over real numbers:
  - maximum, count, mean and sample (n−1) variance;
  - median and median absolute deviation;
  - numpy's linear-interpolation percentile over a sorted copy. The sorted
    copy is specified as sorted and a permutation.

  The square root behind the standard deviation and pandas' skewness and
  kurtosis estimators enter as function parameters. Pandas' missing value
  for too-short groups is the `NaN` case of `Value`.
- **Sliding windows and the window validity check** (`windows.dfy`).
  `window_packets` is a loop method proved against a recursive
  specification. The direction split of `classify_window` decides whether
  a window yields a row.
- **Timestamps** (`civil.dfy`, `timestamps.dfy`):
  - `datetime.strptime` on the three patterns the pipeline uses;
  - the two `convert_timestamp` rule chains;
  - the fixed UTC−6 display of `convert_timestamp_to_mdt`, on top of
    proleptic Gregorian date arithmetic with Python's ordinals;
  - the `stop_filter` bound of a training read.

  Time-zone rules and the machine's local time are parameters.
- **Training-row accumulation** (`dataset.dfy`). The loop body of
  `read_training_files` does the following for each capture file:
  - takes the device and the activity from path components;
  - takes the file index from the `(.+?)(\d+)\.pcapng` match;
  - takes the activity marker at `index − 1`;
  - accepts or drops the flow;
  - for an accepted flow, appends one row and one label.

  The method `ReadTrainingFiles` is proved against the specification
  function `TrainingSet`. The fatal exits are a `Fatal` error value, in
  the code's order.

Two details of the code that the model keeps as written:

- `stop_filter` (`common_modules/utilities.py`) has no lower bound, and
  its upper bound is inclusive: a packet at exactly marker + delta does
  not stop the read.
- The training code splits a flow by comparing a packet address with the
  whole list that the root `get_ip_address` returns (see Findings).

## Model

| member | source | states |
|---|---|---|
| Lookup.FirstIndexFrom | common_modules/flow_labeling.py:21-23 | the index found is the first table entry, from k on, whose pattern occurs in the text; every entry before it misses |
| Lookup.FirstMatchAt | common_modules/flow_labeling.py:21-23 | an entry whose pattern occurs, with no earlier entry occurring, decides the lookup |
| Lookup.FirstMatchNone | common_modules/flow_labeling.py:26 | the lookup misses exactly when no pattern of the table occurs |
| Lookup.FirstMatchSome | common_modules/flow_labeling.py:21-23 | a hit is the value of an entry whose pattern occurs and before which no pattern occurs |
| Text.LowerChar | common_modules/flow_labeling.py:22 | ASCII upper-case letters move 32 code points down; every other character is kept |
| Text.LowerIdempotent | common_modules/flow_labeling.py:22 | lower-casing twice is lower-casing once |
| Text.LowerOfLowercase | common_modules/flow_labeling.py:22 | a string without upper-case letters is its own lower case |
| Text.ContainsIff | common_modules/flow_labeling.py:22 | the substring test holds exactly when the pattern occurs at some position |
| Text.ContainsSlice | common_modules/flow_labeling.py:22 | a pattern copied out of the text at a position is contained in it |
| Text.Split | dataset_formatter.py:45 | str.split always gives at least one piece |
| Text.JoinSplit | dataset_formatter.py:45 | joining the pieces of a split with the separator gives the string back |
| Text.SplitJoin | dataset_formatter.py:48-49 | splitting separator-free pieces joined by the separator gives the pieces back |
| Text.NumberValue | dataset_formatter.py:51 | int() of k decimal digits is below 10^k |
| Text.DigitRun | dataset_formatter.py:50 | the digit run at the front is all digits and is followed by a non-digit or the end |
| Text.PadDigits | common_modules/utilities.py:79 | a zero-padded field has the given width, is all digits, and reads back as the number modulo 10^width |
| FlowLabeling.GetFlowLabel | common_modules/flow_labeling.py:3-26 | the label lies in −1..5, and it is −1 exactly when no pattern occurs in the lower-cased activity |
| FlowLabeling.GetActivityNameFromLabel | common_modules/flow_labeling.py:28-46 | a name exists exactly for the labels 0..5 |
| FlowLabeling.LabelOfFirstPattern | common_modules/flow_labeling.py:11-23 | the first pattern, in listed order, that occurs in the lower-cased activity gives the label |
| FlowLabeling.CaseIgnored | common_modules/flow_labeling.py:22 | an activity and its lower case get the same label |
| FlowLabeling.PlayMusicMixedCase | common_modules/flow_labeling.py:14-23 | "Play-Music" is labelled 2 |
| FlowLabeling.EarlierPatternWins | common_modules/flow_labeling.py:12-17 | any activity containing 'speaker-startup' is labelled 0, whatever else (such as 'call') it contains |
| FlowLabeling.CanonicalLowercase | common_modules/flow_labeling.py:12-17 | the six canonical names are lower case |
| FlowLabeling.NoEarlierPattern | common_modules/flow_labeling.py:12-17 | no canonical name contains a pattern listed before its own |
| FlowLabeling.LabelRoundTrip | common_modules/flow_labeling.py:36-46 | for k in 0..5 the name of k is labelled k; every other k has no name |
| FlowLabeling.NameRoundTrip | common_modules/flow_labeling.py:11-43 | the name of the label of each canonical name is that name |
| RootFlowLabeling.GetFlowLabel | flow_labeling.py:4-27 | the label lies in −1..5, and it is −1 exactly when no pattern occurs in the lower-cased activity |
| RootFlowLabeling.SameAsCommon | flow_labeling.py:12-19 | both label functions agree on every input |
| RootFlowLabeling.CanonicalNames | flow_labeling.py:12-19 | each canonical name gets its listed label |
| RootFlowLabeling.VideoStreamCall | flow_labeling.py:16-24 | "video-stream-call" is labelled 4, not 5 |
| DeviceAddresses.GetIpAddress | common_modules/ip_addresses.py:4-23 | no address exactly when neither device pattern occurs in the lower-cased name |
| DeviceAddresses.CameraAddress | common_modules/ip_addresses.py:13-20 | a name containing 'tplink-tapo-camera' gives 192.168.1.153, even when it also names the speaker |
| DeviceAddresses.SpeakerAddress | common_modules/ip_addresses.py:14-20 | a name containing 'sonos-smart-speaker' and not the camera gives 192.168.1.173 |
| DeviceAddresses.CaseIgnored | common_modules/ip_addresses.py:19 | a name and its lower case get the same address |
| DeviceAddresses.MixedCaseCamera | common_modules/ip_addresses.py:13-19 | "TPLink-Tapo-Camera" gives 192.168.1.153 |
| RootDeviceAddresses.GetIpAddress | ip_addresses.py:4-45 | no addresses exactly when no pattern occurs in the lower-cased name; otherwise one or two addresses |
| RootDeviceAddresses.OneOrTwoAddresses | ip_addresses.py:12-37 | every table entry lists one or two addresses |
| RootDeviceAddresses.EchoDot | ip_addresses.py:33-34 | "echo-dot" contains 'echo' yet resolves to ['10.42.0.114'], since 'echo-dot' is listed first |
| RootDeviceAddresses.Echo | ip_addresses.py:34-42 | a name containing 'echo' and no earlier pattern resolves to ['192.168.42.74'] |
| RootDeviceAddresses.BlossomSprinkler | ip_addresses.py:14 | 'blossom-sprinkler' resolves to its two addresses |
| RootDeviceAddresses.CaseIgnored | ip_addresses.py:41 | a name and its lower case get the same addresses |
| Packets.Lengths | common_modules/utilities.py:123-125 | one length per packet, in order |
| Packets.Filter | evaluation_modules/evaluation_utilities.py:34 | the comprehension keeps exactly the elements that pass, and is no longer than its input |
| Packets.FilterAppend | evaluation_modules/evaluation_utilities.py:34 | filtering a concatenation filters each part, so input order is kept |
| Packets.FilterEmpty | evaluation_modules/evaluation_utilities.py:61 | the filtered list is empty exactly when no element passes |
| Stats.Max | common_modules/utilities.py:129 | np.max is an element and bounds every element |
| Stats.Min | common_modules/utilities.py:137 | the minimum is an element and is below every element |
| Stats.Insert | common_modules/utilities.py:137 | inserting into a sorted list keeps it sorted and adds exactly the element |
| Stats.Sort | common_modules/utilities.py:137 | the sorted copy np.percentile works on is sorted and a permutation of the input |
| Stats.SortedPermutationUnique | common_modules/utilities.py:137 | two sorted permutations of one another are equal |
| Stats.SortIsUnique | common_modules/utilities.py:137 | any sorted permutation of the input is its sorted copy |
| Stats.SortEnds | common_modules/utilities.py:137 | the sorted copy starts with the minimum and ends with the maximum |
| Stats.VirtualIndex | common_modules/utilities.py:137 | (n−1)·p/100 split into a whole index below n and a remainder in hundredths |
| Stats.PercentileBounds | common_modules/utilities.py:137-167 | every linear percentile lies between the minimum and the maximum |
| Stats.PercentileMonotone | common_modules/utilities.py:156-167 | the percentile of one list does not decrease as p grows |
| Stats.MedianIsPercentile50 | common_modules/utilities.py:114-161 | np.median is the 50th percentile |
| Stats.MedianBounds | common_modules/utilities.py:114 | the median lies between the minimum and the maximum |
| Stats.AbsDeviations | common_modules/utilities.py:117 | the deviations are the absolute differences from the median, element by element |
| Stats.MadNonNegative | common_modules/utilities.py:112-117 | the median absolute deviation is never negative |
| Stats.MedianOfConstant | common_modules/utilities.py:114 | the median of equal values is that value |
| Stats.MadOfConstant | utilities.py:71-76 | the median absolute deviation of equal values is 0 |
| Stats.MadOfTwoClusters | common_modules/utilities.py:112-117 | for any a and b, in either order, [a,a,b,a,b] has median a and median absolute deviation 0 |
| Stats.MadExample | common_modules/utilities.py:112-117 | [40,40,1500,40,1500] has median 40 and median absolute deviation 0 |
| Stats.MeanBounds | common_modules/utilities.py:138 | the mean lies between the minimum and the maximum |
| Stats.SampleVariance | common_modules/utilities.py:132 | the sample (n−1) variance is never negative |
| Stats.VarianceOfConstant | common_modules/utilities.py:132 | the variance of equal values is 0 |
| Features.MinimumCount | common_modules/utilities.py:131-134 | every statistic needs at least one value |
| Features.Evaluate | common_modules/utilities.py:128-168 | a statistic is a number exactly when the group has enough values; a maximum, mean or percentile lies within the group's range; a maximum is the largest element; a count is the group's size; a variance or MAD is never negative |
| Features.Row | common_modules/utilities.py:128-168 | one value per column of the layout |
| Features.ComputeStatisticalFeatures | common_modules/utilities.py:121-170 | 39 values; positions 0 and 1 (from 0) are the maxima of the complete and outgoing lengths; positions 22, 24 and 25 are the complete, outgoing and incoming packet counts |
| Features.MaximumColumns | common_modules/utilities.py:129-130 | positions 0 and 1 of the layout are the complete and outgoing maxima |
| Features.CountColumns | common_modules/utilities.py:151-154 | positions 22, 24 and 25 of the layout are the complete, outgoing and incoming counts |
| Features.ColumnValue | common_modules/utilities.py:128-168 | column i is its statistic of its group's lengths |
| Features.ColumnWithinRange | common_modules/utilities.py:129-167 | every maximum, mean and percentile column lies between its group's minimum and maximum |
| Features.PercentilesNonDecreasing | common_modules/utilities.py:137-167 | two percentile columns of one group are ordered as their p |
| Features.IncomingPercentileChain | common_modules/utilities.py:156-167 | incoming p10 ≤ p20 ≤ p30 ≤ p40 ≤ p50 ≤ p60 ≤ p80 |
| Features.IncomingMedianColumn | common_modules/utilities.py:161 | the incoming 50th percentile column is the median of the incoming lengths |
| Features.MadColumns | common_modules/utilities.py:136-150 | every MAD column is a non-negative number, and 0 when its group's lengths are all equal |
| Features.MissingValues | common_modules/utilities.py:131-150 | a column is missing exactly when its group is shorter than its statistic needs |
| Features.LayoutEnds | common_modules/utilities.py:128-167 | 39 columns, first Complete Maximum, last Incoming 80th Percentile |
| RootFeatures.ComputeStatisticalFeatures | utilities.py:80-129 | 39 values |
| RootFeatures.SameRows | utilities.py:87-129 | the training copy gives the same row as the evaluation copy for the same input |
| Civil.DaysInMonth | common_modules/utilities.py:50 | every month has 28 to 31 days |
| Civil.OrdinalInjective | common_modules/utilities.py:74 | distinct valid dates have distinct day ordinals |
| Civil.DateOfDay | common_modules/utilities.py:74 | the date n days from 1970-01-01 is valid and has ordinal 719163 + n |
| Civil.DateOfDayInverse | common_modules/utilities.py:74 | a valid date is recovered from its day count |
| Civil.DayOfDateInverse | common_modules/utilities.py:74 | a day count is recovered from its date |
| Civil.FromSeconds | common_modules/utilities.py:74 | the date-time of a second count is a valid date with an in-range time and no microseconds |
| Civil.SecondsOfFromSeconds | common_modules/utilities.py:74 | counting the seconds of that date-time gives the count back |
| Civil.FromSecondsOfSeconds | common_modules/utilities.py:74-77 | a valid date-time without microseconds is recovered from its seconds |
| Civil.AddHour | utilities.py:62 | the date-time one hour later is valid, has the same microseconds, and is exactly 3600 seconds after the input |
| Timestamps.SpaceRun | common_modules/utilities.py:50 | a space in a pattern takes the whole whitespace run at the front |
| Timestamps.MatchDirective | common_modules/utilities.py:50 | a directive consumes a non-empty prefix of the text and captures exactly that prefix |
| Timestamps.ClockHour | utilities.py:50 | a 12-hour reading gives an hour below 24, equal to h modulo 12, and in the afternoon exactly for PM |
| Timestamps.ClockHourCases | utilities.py:50 | 12 AM is hour 0, 12 PM is hour 12, another h PM is h + 12, another h AM is h |
| Timestamps.Build | common_modules/utilities.py:50 | whatever strptime builds is a date-time the datetime constructor accepts (the date-time a given text yields is stated by ParseMdtText, ParseIsoText and ParseUciText) |
| Timestamps.Strptime | common_modules/utilities.py:50 | a successful parse is a valid date-time (which one is stated by ParseMdtText, ParseIsoText and ParseUciText) |
| Timestamps.ConvertTimestamp | common_modules/utilities.py:44-63 | the conversion fails exactly when the text is not of the shape "%Y-%m-%d %H:%M:%S.%f MDT" (with "format not recognized") or its date is 0001-01-01 or 9999-12-31, where localize overflows (OutOfRange); otherwise it is the instant of the parsed date-time at the America/Denver offset for it |
| Timestamps.RootConvertTimestamp | utilities.py:43-67 | a text the 12-hour rule reads fails exactly when its date is 0001-01-01 or 9999-12-31, where localize overflows, and otherwise converts to the instant of that date-time at the America/Los_Angeles offset for it; any other text fails exactly when the fallback rule cannot read it or the later hour leaves year 9999 |
| Timestamps.FirstRuleWins | utilities.py:46-56 | a text the 12-hour rule reads gets the same result whatever the fallback's local-time rule is, and succeeds exactly when localize does not overflow on its date |
| Timestamps.FallbackAddsOneHour | utilities.py:58-64 | a text only the fallback reads converts to the local-time instant of AddHour of the parsed date-time, the valid date-time 3600 seconds on with microseconds kept |
| Timestamps.MatchPiece | common_modules/utilities.py:50 | a directive that fits a piece of printed text (a zero-padded field before a non-digit, its own literal, a lone space, an AM/PM marker) consumes exactly that piece |
| Timestamps.MatchPieces | common_modules/utilities.py:50 | pieces that fit the pattern from directive k on are consumed one directive each, and the group dictionary collects the fields among them |
| Timestamps.IsoFits | common_modules/utilities.py:50 | any pattern that starts with the thirteen directives of "%Y-%m-%d %H:%M:%S.%f", as both fraction patterns do, takes the thirteen pieces of the six-digit-fraction rendering IsoText one directive each (IsoText is str(dt) only when dt.micro > 0) |
| Timestamps.IsoCaptures | common_modules/utilities.py:50 | the group dictionary on IsoText holds the zero-padded year, month, day, hour, minute, second and six-digit microseconds |
| Timestamps.ClockCaptures | common_modules/utilities.py:50 | the clock part of IsoText adds exactly the hour, minute, second and microsecond fields |
| Timestamps.BuildIso | common_modules/utilities.py:50 | those fields build dt back |
| Timestamps.IsoPrefix | common_modules/utilities.py:50 | those thirteen directives read IsoText up to its tail and leave exactly the fields IsoFields(dt) captured |
| Timestamps.MatchMdtSuffix | common_modules/utilities.py:50 | the trailing " MDT" is matched and adds no field |
| Timestamps.ParseMdtText | common_modules/utilities.py:50 | strptime of IsoText(dt, " MDT") with "%Y-%m-%d %H:%M:%S.%f MDT" is dt, for every valid dt |
| Timestamps.ParseIsoText | utilities.py:60 | strptime of IsoText(dt, "") with "%Y-%m-%d %H:%M:%S.%f" is dt, for every valid dt |
| Timestamps.UciRefusesIsoText | utilities.py:50 | "%m/%d/%Y %I:%M:%S %p" refuses IsoText with any tail, since a month is at most two digits |
| Timestamps.WholeSecondFits | common_modules/utilities.py:50 | the first eleven of those directives take the eleven pieces of "YYYY-MM-DD HH:MM:SS" one directive each |
| Timestamps.DotRefuses | common_modules/utilities.py:50 | the '.' before %f refuses text that does not start with '.' |
| Timestamps.WholeSecondRefused | common_modules/utilities.py:50 | both fraction patterns refuse "YYYY-MM-DD HH:MM:SS" followed by nothing or by text not starting with a digit or '.' |
| Timestamps.UciRefusesStrText | utilities.py:50 | "%m/%d/%Y %I:%M:%S %p" refuses str(dt) with any tail, with or without a fraction |
| Timestamps.ParseStrText | common_modules/utilities.py:50 | strptime reads str(dt) (and str(dt) + " MDT") back as dt exactly when dt.micro > 0; with zero microseconds str() drops the fraction and both patterns refuse it |
| Timestamps.UciFits | utilities.py:50 | "%m/%d/%Y %I:%M:%S %p" takes a printed 12-hour reading piece by piece |
| Timestamps.UciCaptures | utilities.py:50 | the group dictionary of that reading holds month, day, year, hour, minute, second and the marker |
| Timestamps.BuildUci | utilities.py:50 | those fields build the date with the hour ClockHour(h, marker), no microseconds |
| Timestamps.ParseUciText | utilities.py:50 | strptime of "MM/DD/YYYY hh:MM:SS AM/PM" is that date at hour ClockHour(h, marker): 12 AM is 0, 12 PM is 12, h PM is h + 12 |
| Timestamps.ConvertMdtText | common_modules/utilities.py:44-59 | IsoText(dt, " MDT") converts to dt's instant at the America/Denver offset for dt, except on 0001-01-01 and 9999-12-31, where it fails with OutOfRange |
| Timestamps.RootConvertUciText | utilities.py:43-54 | a 12-hour reading converts to the instant of its 24-hour date-time at the America/Los_Angeles offset, whatever the local time, except on 0001-01-01 and 9999-12-31, where it fails with OutOfRange |
| Timestamps.LastDayOverflows | utilities.py:50-52 | "12/31/9999 11:00:00 PM" is read by the 12-hour rule and then fails with OutOfRange, never reaching the fallback |
| Timestamps.RootConvertIsoText | utilities.py:43-64 | IsoText(dt, "") falls through to the fallback and converts to the local-time instant one hour after dt |
| Timestamps.ConvertStrText | common_modules/utilities.py:44-63 | str(dt) + " MDT" fails with "format not recognized" when dt.micro == 0, fails with OutOfRange on 0001-01-01 and 9999-12-31, and otherwise converts to dt's Denver instant |
| Timestamps.RootConvertStrText | utilities.py:43-67 | str(dt) converts to the local-time instant one hour after dt when dt.micro > 0, and otherwise fails with "format not recognized" |
| Timestamps.RoundHalfEven | common_modules/utilities.py:74 | the rounded value is within one half of its input |
| Timestamps.MdtReading | common_modules/utilities.py:74-77 | the reading exists exactly when the UTC and shifted dates are in years 1..9999; it is then valid, has no microseconds, and lies exactly 21600 seconds before the instant's whole seconds |
| Timestamps.ConvertTimestampToMdt | common_modules/utilities.py:67-79 | the display exists exactly when the MDT reading does |
| Timestamps.ReadingShowsMdt | common_modules/utilities.py:74-77 | the instant six hours after any wall-clock time dt, plus a fraction that does not round to a second, reads back as dt |
| Timestamps.DisplayShowsMdt | common_modules/utilities.py:74-79 | that instant is displayed as dt in '%Y-%m-%d %H:%M:%S MDT', fraction dropped, for every date-time whose UTC instant is in range |
| Timestamps.StopFilter | common_modules/utilities.py:107-108 | the read stops exactly at a packet more than delta after the marker |
| Timestamps.StopFilterBounds | common_modules/utilities.py:107-108 | a packet at marker + delta or before the marker never stops the read; a later packet stops it whenever an earlier one does |
| Windowing.InInterval | evaluation_modules/evaluation_utilities.py:34 | a window holds exactly the input packets with start ≤ time < end |
| Windowing.WindowPackets | evaluation_modules/evaluation_utilities.py:12-43 | the loop returns no windows for no packets, and exactly the windows of the recursive specification otherwise |
| Windowing.WindowsFromShape | evaluation_modules/evaluation_utilities.py:30-42 | every window from a start on the grid is non-empty, ends delta after it starts, holds exactly its interval's packets, and starts on the grid at or before the last packet time |
| Windowing.WindowsFromIncreasing | evaluation_modules/evaluation_utilities.py:31-42 | window starts strictly increase |
| Windowing.WindowsProperties | evaluation_modules/evaluation_utilities.py:22-42 | no packets give no windows; otherwise every window is non-empty, spans delta, holds exactly the packets of its interval, and starts at first + k·(delta − overlap), no later than the last packet; starts strictly increase |
| Windowing.SampleWindows | evaluation_modules/evaluation_utilities.py:12-43 | packets at t0 + {0,1,2,3,10,11,12} with delta 5 and overlap 2 give windows starting at t0 + 0, 3, 6, 9, 12 |
| Windowing.ClassifyWindowFeatures | evaluation_modules/evaluation_utilities.py:57-64 | a window is rejected exactly when it has no outgoing or no incoming IP packet; otherwise its row is compute_statistical_features of the whole window (non-IP packets too), its incoming and its outgoing packets, 39 values with the three counts at 22, 24 and 25 |
| Windowing.DirectionsOfPacket | evaluation_modules/evaluation_utilities.py:57-58 | a packet is outgoing exactly when it is IP with its source listed, and incoming exactly when it is IP with its destination listed, so it can be both |
| DatasetFormatter.FileIndexOfName | dataset_formatter.py:50-51 | a name of a prefix (no newline, no digit after its first character), digits and ".pcapng" gives the digits' value |
| DatasetFormatter.FileIndexExamples | dataset_formatter.py:50-51 | "ab12.pcapng" gives 12 and "123.pcapng" gives 23 |
| DatasetFormatter.SingleDigitName | dataset_formatter.py:50 | "1.pcapng" does not match |
| DatasetFormatter.PyIndex | dataset_formatter.py:62 | Python indexing succeeds exactly for −len ≤ j < len |
| DatasetFormatter.MarkerOfIndex | dataset_formatter.py:62 | index k picks marker k (1-based), index 0 the last marker, an index past the end none |
| DatasetFormatter.DeviceAndActivity | dataset_formatter.py:48-49 | in a path of separator-free components, [−4] is the device and [−3] the activity |
| DatasetFormatter.Outgoing | dataset_formatter.py:74-76 | no outgoing packet exactly when no packet is sent by the device; none at all as written |
| DatasetFormatter.Incoming | dataset_formatter.py:77-79 | no incoming packet exactly when no packet is sent to the device |
| DatasetFormatter.FlowOf | dataset_formatter.py:71-98 | a flow is dropped exactly when it is empty or lacks an outgoing or an incoming packet; a non-empty flow with a packet lacking an IP layer fails with NoIpLayer; an accepted flow is all IP, its row is compute_statistical_features of its packets, incoming and outgoing packets (39 values), and its label is the activity's, in 0..5; the only other failure is an unknown activity |
| DatasetFormatter.AcceptedRowCounts | dataset_formatter.py:71-98 | an accepted flow's row counts all its packets in column 22, the device's outgoing packets in column 24 and its incoming packets in column 25 |
| DatasetFormatter.MarkerInstant | dataset_formatter.py:65 | the marker's instant is convert_timestamp's value when that succeeds, and otherwise the run ends with BadTimestamp carrying convert_timestamp's error |
| DatasetFormatter.MarkedFlow | dataset_formatter.py:62-98 | an accepted flow has 39 values and a label in 0..5 |
| DatasetFormatter.ProcessFile | dataset_formatter.py:42-98 | an accepted file has 39 values and a label in 0..5, and only with the intended address test |
| DatasetFormatter.UnknownDeviceIsFatal | dataset_formatter.py:52-57 | a device the address table does not know ends the run |
| DatasetFormatter.FailureSticks | dataset_formatter.py:55-95 | a fatal error is the outcome whatever files follow |
| DatasetFormatter.ReadTrainingFiles | dataset_formatter.py:28-98 | the loop returns exactly the training set of its files (rows and labels appended per accepted flow, or the first fatal error) |
| DatasetFormatter.Lockstep | dataset_formatter.py:84-98 | rows and labels have equal length; every row has 39 values; every label is in 0..5 |
| DatasetFormatter.AsWrittenDropsTwoWayFlow | dataset_formatter.py:74-79 | a flow with one packet each way is accepted with membership but dropped as written |
| DatasetFormatter.AsWrittenTrainingSetEmpty | dataset_formatter.py:74-98 | as written, a run that ends normally has no rows and no labels |
| DatasetFormatter.IntendedAcceptsFlow | dataset_formatter.py:74-92 | with membership, a flow of IP packets with one packet from the device, one to it and a known activity is accepted |

## Left out

- File and directory I/O are not modelled: `read_timestamp_files`, `list_pcapng_files`, the `os.walk` traversal and the result writer. The markers of each activity are the map `Environment.markers`. The walked files are a sequence of (root, name) pairs in walk order.
- scapy's `sniff` and its BPF host filters are not modelled. The packets of a training read are the function parameter `Environment.readPackets`. Whether `sniff` keeps the packet that stops the read is its own affair.
- The `_read_pcapng_files` that `dataset_formatter.py` imports at line 11 is not defined in `utilities.py`. As written, that import raises ImportError, so `read_training_files` is never reached. The model assumes the import is repaired and takes the function as that same parameter. The Findings row's "every run that ends normally" rests on that assumption.
- pytz zone rules are the parameter `Zone`, a UTC offset per naive date-time. Python's local-time `.timestamp()` is the parameter `localTimestamp`. The one failure of `localize` the model keeps is its OverflowError on 0001-01-01 and 9999-12-31 (it steps a day either way), as `OutOfRange`.
- Square root, pandas skewness and kurtosis are the `Estimators` parameters. No property is stated about those columns beyond when they are missing.
- IEEE floating point is not modelled. Lengths, times and statistics are exact reals, so rounding in the mean, variance and percentiles is absent.
- Packet times are exact reals. The window loop's repeated `current_start += step` is therefore exact in the model.
- Windowing.WindowPackets: the overlap has no default; Python's `overlap=2` is a value the caller passes.
- Windowing.WindowPackets: requires delta > overlap. The code does not check this, and with a non-positive step its loop never ends.
- Model loading, prediction and printing in `classify_window` are not modelled. Neither are the classifier module and `main.py`.
- `evaluation_module.py` is not part of this model. That includes its line 70, which classifies the whole capture instead of the window.
- Timestamps.Strptime: it covers only the directives of the three patterns used (%Y %m %d %H %I %M %S %f %p, whitespace and literals). Digits are ASCII only. Locale-dependent AM/PM names are fixed to am/pm.
- DatasetFormatter.FileIndex: `\d` and `int()` accept every Unicode decimal digit; the model reads ASCII digits only, so a file name numbered in other scripts is not covered.
- Timestamps.RenderMdt: `strftime` pads the year to four digits. Years below 1000 on other platforms are not modelled.
- DeviceAddresses.GetIpAddress, RootDeviceAddresses.GetIpAddress and FlowLabeling.GetActivityNameFromLabel: the integer sentinel −1 is `None`.
- Lower-casing is ASCII only. `str.lower` on other letters is not modelled.
- The distinctness of the names in each table is not proved in general. It is proved only for the round trips listed above.
- `os.path.join` with a file name that starts with a separator is not modelled. File names from a directory walk never contain one.

## Findings

| source | as written | input that shows it | evidently intended | confidence | as-written member | corrected member |
|---|---|---|---|---|---|---|
| dataset_formatter.py:74-79 | outgoing and incoming keep packets whose address `==` the value of the root `get_ip_address`, which is a list of strings, so no packet ever passes | device 'echo-dot' (addresses ['10.42.0.114']), a packet 10.42.0.114 → peer and one peer → 10.42.0.114: both direction lists are empty and the flow is dropped; every run that ends normally yields an empty training set | a packet is outgoing when its source is one of the device's addresses and incoming when its destination is (as `classify_window` does with `in`) | not executed | DatasetFormatter.AsWrittenTrainingSetEmpty | DatasetFormatter.ReadTrainingFiles |

/** The 39-number feature row of compute_statistical_features
    (common_modules/utilities.py): for each named column, one statistic of
    the packet lengths of one of three groups — the complete flow, its
    outgoing packets and its incoming packets — in the dict's insertion
    order. */
module Features {
  import opened Stats
  import opened Packets

  /** pandas' missing value: Series.var() and .std() of fewer than two
      values, .skew() of fewer than three, .kurtosis() of fewer than four. */
  datatype Value = Num(x: real) | NaN

  datatype Group = Complete | Outgoing | Incoming

  type Pct = p: nat | p <= 100

  datatype Stat =
    | Maximum | Mean | Variance | StdDev | Skew | Kurtosis | Mad | Count
    | Percentile(p: Pct)

  datatype Column = Column(name: string, group: Group, stat: Stat)

  /** The square root behind std() and pandas' bias-corrected skewness and
      kurtosis estimators; the model does not compute them. */
  datatype Estimators = Estimators(
    sqrt: real -> real,
    skew: seq<real> -> real,
    kurtosis: seq<real> -> real)

  /** The column dictionary of compute_statistical_features, in order. */
  const Layout: seq<Column> := [
    Column("Complete Maximum", Complete, Maximum),
    Column("Outgoing Maximum", Outgoing, Maximum),
    Column("Complete Skew", Complete, Skew),
    Column("Outgoing Variance", Outgoing, Variance),
    Column("Outgoing Standard Deviation", Outgoing, StdDev),
    Column("Outgoing Kurtosis", Outgoing, Kurtosis),
    Column("Outgoing Skew", Outgoing, Skew),
    Column("Outgoing Median Absolute Deviation", Outgoing, Mad),
    Column("Outgoing 90th Percentile", Outgoing, Percentile(90)),
    Column("Complete Mean", Complete, Mean),
    Column("Complete Kurtosis", Complete, Kurtosis),
    Column("Outgoing Mean", Outgoing, Mean),
    Column("Variance", Complete, Variance),
    Column("Standard Deviation", Complete, StdDev),
    Column("Complete 90th Percentile", Complete, Percentile(90)),
    Column("Outgoing 80th Percentile", Outgoing, Percentile(80)),
    Column("Complete Median Absolute Deviation", Complete, Mad),
    Column("Incoming Variance", Incoming, Variance),
    Column("Incoming Skew", Incoming, Skew),
    Column("Incoming Standard Deviation", Incoming, StdDev),
    Column("Incoming Kurtosis", Incoming, Kurtosis),
    Column("Incoming Median Absolute Deviation", Incoming, Mad),
    Column("Complete Number of packets", Complete, Count),
    Column("Outgoing 70th Percentile", Outgoing, Percentile(70)),
    Column("Outgoing Number of packets", Outgoing, Count),
    Column("Incoming Number of packets", Incoming, Count),
    Column("Incoming Mean", Incoming, Mean),
    Column("Incoming 30th Percentile", Incoming, Percentile(30)),
    Column("Incoming 40th Percentile", Incoming, Percentile(40)),
    Column("Incoming 60th Percentile", Incoming, Percentile(60)),
    Column("Complete 10th Percentile", Complete, Percentile(10)),
    Column("Complete 20th Percentile", Complete, Percentile(20)),
    Column("Incoming 50th Percentile", Incoming, Percentile(50)),
    Column("Incoming 20th Percentile", Incoming, Percentile(20)),
    Column("Complete 80th Percentile", Complete, Percentile(80)),
    Column("Complete 30th Percentile", Complete, Percentile(30)),
    Column("Incoming 10th Percentile", Incoming, Percentile(10)),
    Column("Outgoing 60th Percentile", Outgoing, Percentile(60)),
    Column("Incoming 80th Percentile", Incoming, Percentile(80))
  ]

  /** How many values a statistic needs before pandas gives a number. */
  function MinimumCount(st: Stat): (n: nat)
    ensures n >= 1
  {
    match st
    case Variance => 2
    case StdDev => 2
    case Skew => 3
    case Kurtosis => 4
    case _ => 1
  }

  /** One statistic of one group's lengths. */
  function Evaluate(st: Stat, xs: seq<real>, est: Estimators): (v: Value)
    requires |xs| > 0
    ensures v.Num? <==> |xs| >= MinimumCount(st)
    ensures (st.Maximum? || st.Mean? || st.Percentile?) ==> v.Num? && Min(xs) <= v.x <= Max(xs)
    ensures st.Maximum? ==> v.x in xs && forall i :: 0 <= i < |xs| ==> xs[i] <= v.x
    ensures st.Count? ==> v == Num(|xs| as real)
    ensures (st.Mad? || st.Variance?) && v.Num? ==> v.x >= 0.0
  {
    match st
    case Maximum => Num(Max(xs))
    case Mean => MeanBounds(xs); Num(Stats.Mean(xs))
    case Variance => if |xs| >= 2 then Num(SampleVariance(xs)) else NaN
    case StdDev => if |xs| >= 2 then Num(est.sqrt(SampleVariance(xs))) else NaN
    case Skew => if |xs| >= 3 then Num(est.skew(xs)) else NaN
    case Kurtosis => if |xs| >= 4 then Num(est.kurtosis(xs)) else NaN
    case Mad => MadNonNegative(xs); Num(Stats.Mad(xs))
    case Count => Num(|xs| as real)
    case Percentile(p) => PercentileBounds(xs, p); Num(Stats.Percentile(xs, p))
  }

  function Pick(g: Group, complete: seq<real>, outgoing: seq<real>, incoming: seq<real>): seq<real>
  {
    match g
    case Complete => complete
    case Outgoing => outgoing
    case Incoming => incoming
  }

  /** The row a column layout gives for three groups of lengths. */
  function Row(layout: seq<Column>, complete: seq<real>, outgoing: seq<real>, incoming: seq<real>, est: Estimators): (row: seq<Value>)
    requires |complete| > 0 && |outgoing| > 0 && |incoming| > 0
    ensures |row| == |layout|
  {
    seq(|layout|, i requires 0 <= i < |layout| =>
      Evaluate(layout[i].stat, Pick(layout[i].group, complete, outgoing, incoming), est))
  }

  /** compute_statistical_features: the single row of the data frame. np.max
      of an empty list raises, so every group must hold a packet; both
      callers reject a flow before that can happen. */
  function ComputeStatisticalFeatures(packets: seq<Packet>, incoming: seq<Packet>, outgoing: seq<Packet>, est: Estimators): (row: seq<Value>)
    requires |packets| > 0 && |incoming| > 0 && |outgoing| > 0
    ensures |row| == 39
    ensures row[0] == Num(Max(Lengths(packets)))
    ensures row[1] == Num(Max(Lengths(outgoing)))
    ensures row[22] == Num(|packets| as real)
    ensures row[24] == Num(|outgoing| as real)
    ensures row[25] == Num(|incoming| as real)
  {
    var c, o, n := Lengths(packets), Lengths(outgoing), Lengths(incoming);
    MaximumColumns();
    CountColumns();
    RowAt(Layout, c, o, n, est, 0);
    RowAt(Layout, c, o, n, est, 1);
    RowAt(Layout, c, o, n, est, 22);
    RowAt(Layout, c, o, n, est, 24);
    RowAt(Layout, c, o, n, est, 25);
    Row(Layout, c, o, n, est)
  }

  lemma MaximumColumns()
    ensures Layout[0].group == Complete && Layout[0].stat == Maximum
    ensures Layout[1].group == Outgoing && Layout[1].stat == Maximum
  {
  }

  lemma CountColumns()
    ensures Layout[22].group == Complete && Layout[22].stat == Count
    ensures Layout[24].group == Outgoing && Layout[24].stat == Count
    ensures Layout[25].group == Incoming && Layout[25].stat == Count
  {
  }

  lemma RowAt(layout: seq<Column>, complete: seq<real>, outgoing: seq<real>, incoming: seq<real>, est: Estimators, i: nat)
    requires |complete| > 0 && |outgoing| > 0 && |incoming| > 0 && i < |layout|
    ensures Row(layout, complete, outgoing, incoming, est)[i]
         == Evaluate(layout[i].stat, Pick(layout[i].group, complete, outgoing, incoming), est)
  {
  }

  /** The lengths of the group a column reads. */
  function GroupOf(i: nat, packets: seq<Packet>, incoming: seq<Packet>, outgoing: seq<Packet>): seq<real>
    requires i < |Layout|
  {
    Pick(Layout[i].group, Lengths(packets), Lengths(outgoing), Lengths(incoming))
  }

  /** Column i of the row is its statistic of its group. */
  lemma ColumnValue(packets: seq<Packet>, incoming: seq<Packet>, outgoing: seq<Packet>, est: Estimators, i: nat)
    requires |packets| > 0 && |incoming| > 0 && |outgoing| > 0 && i < |Layout|
    ensures |GroupOf(i, packets, incoming, outgoing)| > 0
    ensures ComputeStatisticalFeatures(packets, incoming, outgoing, est)[i]
         == Evaluate(Layout[i].stat, GroupOf(i, packets, incoming, outgoing), est)
  {
    RowAt(Layout, Lengths(packets), Lengths(outgoing), Lengths(incoming), est, i);
  }

  /** Every maximum, mean and percentile column lies between its group's
      smallest and largest length. */
  lemma ColumnWithinRange(packets: seq<Packet>, incoming: seq<Packet>, outgoing: seq<Packet>, est: Estimators, i: nat)
    requires |packets| > 0 && |incoming| > 0 && |outgoing| > 0
    requires i < |Layout| && (Layout[i].stat.Maximum? || Layout[i].stat.Mean? || Layout[i].stat.Percentile?)
    ensures var row := ComputeStatisticalFeatures(packets, incoming, outgoing, est);
            var xs := GroupOf(i, packets, incoming, outgoing);
            |xs| > 0 && row[i].Num? && Min(xs) <= row[i].x <= Max(xs)
  {
    ColumnValue(packets, incoming, outgoing, est, i);
  }

  /** Within one group, a higher percentile column never holds a smaller
      value. */
  lemma PercentilesNonDecreasing(packets: seq<Packet>, incoming: seq<Packet>, outgoing: seq<Packet>, est: Estimators, i: nat, j: nat)
    requires |packets| > 0 && |incoming| > 0 && |outgoing| > 0
    requires i < |Layout| && j < |Layout| && Layout[i].group == Layout[j].group
    requires Layout[i].stat.Percentile? && Layout[j].stat.Percentile?
    requires Layout[i].stat.p <= Layout[j].stat.p
    ensures var row := ComputeStatisticalFeatures(packets, incoming, outgoing, est);
            row[i].Num? && row[j].Num? && row[i].x <= row[j].x
  {
    ColumnValue(packets, incoming, outgoing, est, i);
    ColumnValue(packets, incoming, outgoing, est, j);
    EvaluateMonotone(GroupOf(i, packets, incoming, outgoing), Layout[i].stat.p, Layout[j].stat.p, est);
  }

  lemma EvaluateMonotone(xs: seq<real>, p: Pct, q: Pct, est: Estimators)
    requires |xs| > 0 && p <= q
    ensures Evaluate(Percentile(p), xs, est).x <= Evaluate(Percentile(q), xs, est).x
  {
    PercentileMonotone(xs, p, q);
  }

  /** The incoming percentile columns, read in order of p: 10, 20, 30, 40,
      50, 60, 80 sit at positions 36, 33, 27, 28, 32, 29, 38. */
  lemma IncomingPercentileChain(packets: seq<Packet>, incoming: seq<Packet>, outgoing: seq<Packet>, est: Estimators)
    requires |packets| > 0 && |incoming| > 0 && |outgoing| > 0
    ensures var row := ComputeStatisticalFeatures(packets, incoming, outgoing, est);
            row[36].Num? && row[33].Num? && row[27].Num? && row[28].Num? && row[32].Num? && row[29].Num? && row[38].Num? &&
            row[36].x <= row[33].x <= row[27].x <= row[28].x <= row[32].x <= row[29].x <= row[38].x
  {
    IncomingPercentileColumns();
    PercentilesNonDecreasing(packets, incoming, outgoing, est, 36, 33);
    PercentilesNonDecreasing(packets, incoming, outgoing, est, 33, 27);
    PercentilesNonDecreasing(packets, incoming, outgoing, est, 27, 28);
    PercentilesNonDecreasing(packets, incoming, outgoing, est, 28, 32);
    PercentilesNonDecreasing(packets, incoming, outgoing, est, 32, 29);
    PercentilesNonDecreasing(packets, incoming, outgoing, est, 29, 38);
  }

  lemma IncomingPercentileColumns()
    ensures Layout[36].group == Incoming && Layout[36].stat == Percentile(10)
    ensures Layout[33].group == Incoming && Layout[33].stat == Percentile(20)
    ensures Layout[27].group == Incoming && Layout[27].stat == Percentile(30)
    ensures Layout[28].group == Incoming && Layout[28].stat == Percentile(40)
    ensures Layout[32].group == Incoming && Layout[32].stat == Percentile(50)
    ensures Layout[29].group == Incoming && Layout[29].stat == Percentile(60)
    ensures Layout[38].group == Incoming && Layout[38].stat == Percentile(80)
  {
  }

  /** The incoming 50th percentile column is the incoming median. */
  lemma IncomingMedianColumn(packets: seq<Packet>, incoming: seq<Packet>, outgoing: seq<Packet>, est: Estimators)
    requires |packets| > 0 && |incoming| > 0 && |outgoing| > 0
    ensures ComputeStatisticalFeatures(packets, incoming, outgoing, est)[32] == Num(Median(Lengths(incoming)))
  {
    IncomingPercentileColumns();
    ColumnValue(packets, incoming, outgoing, est, 32);
    MedianIsPercentile50(Lengths(incoming));
  }

  /** The three MAD columns are never negative, and a group whose packets all
      have one length has MAD 0. */
  lemma MadColumns(packets: seq<Packet>, incoming: seq<Packet>, outgoing: seq<Packet>, est: Estimators, i: nat)
    requires |packets| > 0 && |incoming| > 0 && |outgoing| > 0
    requires i < |Layout| && Layout[i].stat.Mad?
    ensures var row := ComputeStatisticalFeatures(packets, incoming, outgoing, est);
            var xs := GroupOf(i, packets, incoming, outgoing);
            row[i].Num? && row[i].x >= 0.0 &&
            ((forall k :: 0 <= k < |xs| ==> xs[k] == xs[0]) ==> row[i].x == 0.0)
  {
    ColumnValue(packets, incoming, outgoing, est, i);
    EvaluateMad(GroupOf(i, packets, incoming, outgoing), est);
  }

  lemma EvaluateMad(xs: seq<real>, est: Estimators)
    requires |xs| > 0
    ensures Evaluate(Mad, xs, est).Num? && Evaluate(Mad, xs, est).x >= 0.0
    ensures (forall k :: 0 <= k < |xs| ==> xs[k] == xs[0]) ==> Evaluate(Mad, xs, est).x == 0.0
  {
    if forall k :: 0 <= k < |xs| ==> xs[k] == xs[0] {
      MadOfConstant(xs, xs[0]);
    }
  }

  /** The variance and standard deviation columns are missing exactly for a
      single-packet group, skew below three packets, kurtosis below four. */
  lemma MissingValues(packets: seq<Packet>, incoming: seq<Packet>, outgoing: seq<Packet>, est: Estimators, i: nat)
    requires |packets| > 0 && |incoming| > 0 && |outgoing| > 0
    requires i < |Layout|
    ensures var row := ComputeStatisticalFeatures(packets, incoming, outgoing, est);
            var n := |GroupOf(i, packets, incoming, outgoing)|;
            row[i].NaN? <==> ((Layout[i].stat.Variance? || Layout[i].stat.StdDev?) && n < 2)
                             || (Layout[i].stat.Skew? && n < 3)
                             || (Layout[i].stat.Kurtosis? && n < 4)
  {
    ColumnValue(packets, incoming, outgoing, est, i);
  }

  /** The row starts with the complete maximum and ends with the incoming
      80th percentile; every column reads one statistic of one group. */
  lemma LayoutEnds()
    ensures |Layout| == 39
    ensures Layout[0].name == "Complete Maximum"
    ensures Layout[38].name == "Incoming 80th Percentile"
  {
  }
}

/** The training side's copy of compute_statistical_features (utilities.py). */
module RootFeatures {
  import opened Packets
  import Features

  const Layout: seq<Features.Column> := [
    Features.Column("Complete Maximum", Features.Complete, Features.Maximum),
    Features.Column("Outgoing Maximum", Features.Outgoing, Features.Maximum),
    Features.Column("Complete Skew", Features.Complete, Features.Skew),
    Features.Column("Outgoing Variance", Features.Outgoing, Features.Variance),
    Features.Column("Outgoing Standard Deviation", Features.Outgoing, Features.StdDev),
    Features.Column("Outgoing Kurtosis", Features.Outgoing, Features.Kurtosis),
    Features.Column("Outgoing Skew", Features.Outgoing, Features.Skew),
    Features.Column("Outgoing Median Absolute Deviation", Features.Outgoing, Features.Mad),
    Features.Column("Outgoing 90th Percentile", Features.Outgoing, Features.Percentile(90)),
    Features.Column("Complete Mean", Features.Complete, Features.Mean),
    Features.Column("Complete Kurtosis", Features.Complete, Features.Kurtosis),
    Features.Column("Outgoing Mean", Features.Outgoing, Features.Mean),
    Features.Column("Variance", Features.Complete, Features.Variance),
    Features.Column("Standard Deviation", Features.Complete, Features.StdDev),
    Features.Column("Complete 90th Percentile", Features.Complete, Features.Percentile(90)),
    Features.Column("Outgoing 80th Percentile", Features.Outgoing, Features.Percentile(80)),
    Features.Column("Complete Median Absolute Deviation", Features.Complete, Features.Mad),
    Features.Column("Incoming Variance", Features.Incoming, Features.Variance),
    Features.Column("Incoming Skew", Features.Incoming, Features.Skew),
    Features.Column("Incoming Standard Deviation", Features.Incoming, Features.StdDev),
    Features.Column("Incoming Kurtosis", Features.Incoming, Features.Kurtosis),
    Features.Column("Incoming Median Absolute Deviation", Features.Incoming, Features.Mad),
    Features.Column("Complete Number of packets", Features.Complete, Features.Count),
    Features.Column("Outgoing 70th Percentile", Features.Outgoing, Features.Percentile(70)),
    Features.Column("Outgoing Number of packets", Features.Outgoing, Features.Count),
    Features.Column("Incoming Number of packets", Features.Incoming, Features.Count),
    Features.Column("Incoming Mean", Features.Incoming, Features.Mean),
    Features.Column("Incoming 30th Percentile", Features.Incoming, Features.Percentile(30)),
    Features.Column("Incoming 40th Percentile", Features.Incoming, Features.Percentile(40)),
    Features.Column("Incoming 60th Percentile", Features.Incoming, Features.Percentile(60)),
    Features.Column("Complete 10th Percentile", Features.Complete, Features.Percentile(10)),
    Features.Column("Complete 20th Percentile", Features.Complete, Features.Percentile(20)),
    Features.Column("Incoming 50th Percentile", Features.Incoming, Features.Percentile(50)),
    Features.Column("Incoming 20th Percentile", Features.Incoming, Features.Percentile(20)),
    Features.Column("Complete 80th Percentile", Features.Complete, Features.Percentile(80)),
    Features.Column("Complete 30th Percentile", Features.Complete, Features.Percentile(30)),
    Features.Column("Incoming 10th Percentile", Features.Incoming, Features.Percentile(10)),
    Features.Column("Outgoing 60th Percentile", Features.Outgoing, Features.Percentile(60)),
    Features.Column("Incoming 80th Percentile", Features.Incoming, Features.Percentile(80))
  ]

  /** compute_statistical_features of utilities.py. */
  function ComputeStatisticalFeatures(packets: seq<Packet>, incoming: seq<Packet>, outgoing: seq<Packet>, est: Features.Estimators): (row: seq<Features.Value>)
    requires |packets| > 0 && |incoming| > 0 && |outgoing| > 0
    ensures |row| == 39
  {
    Features.Row(Layout, Lengths(packets), Lengths(outgoing), Lengths(incoming), est)
  }

  /** Both copies lay out the same 39 columns, so training rows and
      evaluation rows agree position by position. */
  lemma SameRows(packets: seq<Packet>, incoming: seq<Packet>, outgoing: seq<Packet>, est: Features.Estimators)
    requires |packets| > 0 && |incoming| > 0 && |outgoing| > 0
    ensures ComputeStatisticalFeatures(packets, incoming, outgoing, est)
         == Features.ComputeStatisticalFeatures(packets, incoming, outgoing, est)
  {
    assert Layout == Features.Layout;
  }
}

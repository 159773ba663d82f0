/** Sliding-window segmentation of a capture and the direction split that
    decides whether a window is classified
    (evaluation_modules/evaluation_utilities.py). */
module Windowing {
  import opened Wrappers
  import opened Packets
  import Features

  /** One emitted window: its packets and its half-open interval
      [start, end). */
  datatype Window = Window(packets: seq<Packet>, start: real, end: real)

  /** [pkt for pkt in packets if lo <= pkt.time < hi] */
  function InInterval(packets: seq<Packet>, lo: real, hi: real): (r: seq<Packet>)
    ensures forall p :: p in r <==> p in packets && lo <= p.time < hi
  {
    Filter(packets, (p: Packet) => lo <= p.time < hi)
  }

  /** How many more times the loop body runs from start `cur`. */
  function Remaining(cur: real, last: real, step: real): nat
    requires step > 0.0
  {
    if cur > last then 0 else ((last - cur) / step).Floor + 1
  }

  lemma RemainingStep(cur: real, last: real, step: real)
    requires step > 0.0 && cur <= last
    ensures Remaining(cur + step, last, step) < Remaining(cur, last, step)
  {
    if cur + step <= last {
      StepQuotient(last - cur, step);
      assert last - (cur + step) == (last - cur) - step;
    }
  }

  lemma StepQuotient(d: real, step: real)
    requires step > 0.0
    ensures (d - step) / step == d / step - 1.0
  {
    var q := d / step;
    var r := (d - step) / step;
    assert r * step == d - step;
    assert q * step == d;
    var e := r - (q - 1.0);
    assert e * step == 0.0 by {
      assert e * step == r * step - q * step + step;
    }
    if e > 0.0 {
      PositiveProduct(e, step);
    } else if e < 0.0 {
      PositiveProduct(-e, step);
    }
  }

  lemma PositiveProduct(a: real, b: real)
    requires a > 0.0 && b > 0.0
    ensures a * b > 0.0
  {
  }

  /** The windows the loop emits from start `cur` on: every start
      cur, cur + step, ... up to the last packet's time, skipping the
      intervals that hold no packet. */
  function WindowsFrom(packets: seq<Packet>, cur: real, last: real, delta: real, step: real): seq<Window>
    requires step > 0.0
    decreases Remaining(cur, last, step)
  {
    if cur > last then []
    else
      RemainingStep(cur, last, step);
      var here := InInterval(packets, cur, cur + delta);
      (if here == [] then [] else [Window(here, cur, cur + delta)])
        + WindowsFrom(packets, cur + step, last, delta, step)
  }

  /** What window_packets returns. The loop only ends when the step
      delta - overlap is positive, which the code does not check. */
  function Windows(packets: seq<Packet>, delta: real, overlap: real): seq<Window>
    requires delta > overlap
  {
    if packets == [] then []
    else WindowsFrom(packets, packets[0].time, packets[|packets| - 1].time, delta, delta - overlap)
  }

  /** window_packets. Python's default overlap of 2 seconds has no
      counterpart here: callers pass the overlap, 2.0 for that default. */
  method WindowPackets(packets: seq<Packet>, delta: real, overlap: real) returns (windows: seq<Window>)
    requires delta > overlap
    ensures packets == [] ==> windows == []
    ensures windows == Windows(packets, delta, overlap)
  {
    if packets == [] {
      return [];
    }
    windows := [];
    var startTime := packets[0].time;
    var endTime := packets[|packets| - 1].time;
    var step := delta - overlap;
    var currentStart := startTime;
    assert windows + WindowsFrom(packets, currentStart, endTime, delta, step)
        == WindowsFrom(packets, startTime, endTime, delta, step);
    while currentStart <= endTime
      invariant windows + WindowsFrom(packets, currentStart, endTime, delta, step)
             == WindowsFrom(packets, startTime, endTime, delta, step)
      decreases Remaining(currentStart, endTime, step)
    {
      var currentEnd := currentStart + delta;
      var windowPackets := InInterval(packets, currentStart, currentEnd);
      LoopStep(windows, packets, currentStart, endTime, delta, step);
      if windowPackets != [] {
        windows := windows + [Window(windowPackets, currentStart, currentEnd)];
      }
      currentStart := currentStart + step;
    }
    assert WindowsFrom(packets, currentStart, endTime, delta, step) == [];
    assert windows + [] == windows;
  }

  /** The loop body keeps the windows found so far followed by those still
      to come equal to all of them. */
  lemma LoopStep(done: seq<Window>, packets: seq<Packet>, cur: real, last: real, delta: real, step: real)
    requires step > 0.0 && cur <= last
    ensures Remaining(cur + step, last, step) < Remaining(cur, last, step)
    ensures var here := InInterval(packets, cur, cur + delta);
            (if here == [] then done else done + [Window(here, cur, cur + delta)])
              + WindowsFrom(packets, cur + step, last, delta, step)
            == done + WindowsFrom(packets, cur, last, delta, step)
  {
    WindowsFromStep(packets, cur, last, delta, step);
    var here := InInterval(packets, cur, cur + delta);
    if here != [] {
      AppendAssociates(done, Window(here, cur, cur + delta), WindowsFrom(packets, cur + step, last, delta, step));
    }
  }

  /** One turn of the loop: the window at cur, if it holds a packet, then
      the windows from the next start. */
  lemma WindowsFromStep(packets: seq<Packet>, cur: real, last: real, delta: real, step: real)
    requires step > 0.0 && cur <= last
    ensures Remaining(cur + step, last, step) < Remaining(cur, last, step)
    ensures var here := InInterval(packets, cur, cur + delta);
            WindowsFrom(packets, cur, last, delta, step)
              == (if here == [] then [] else [Window(here, cur, cur + delta)])
                 + WindowsFrom(packets, cur + step, last, delta, step)
  {
    RemainingStep(cur, last, step);
  }

  lemma AppendAssociates(done: seq<Window>, w: Window, rest: seq<Window>)
    ensures done + [w] + rest == done + ([w] + rest)
  {
  }

  /** x lies a whole number of steps after origin. */
  predicate OnGrid(x: real, origin: real, step: real)
    requires step > 0.0
  {
    origin <= x && ((x - origin) / step).Floor as real == (x - origin) / step
  }

  lemma GridStep(x: real, origin: real, step: real)
    requires step > 0.0 && OnGrid(x, origin, step)
    ensures OnGrid(x + step, origin, step)
  {
    var q := (x - origin) / step;
    assert (x + step - origin) / step == q + 1.0 by {
      StepQuotient(x + step - origin, step);
      assert (x + step - origin) - step == x - origin;
    }
    assert (q + 1.0).Floor == q.Floor + 1;
  }

  /** What every emitted window satisfies: it spans delta seconds from a
      start between lo and last that lies on the grid origin + k * step, and
      holds exactly the packets of its interval, at least one. */
  predicate Emitted(w: Window, packets: seq<Packet>, lo: real, last: real, origin: real, delta: real, step: real)
    requires step > 0.0
  {
    w.end == w.start + delta && lo <= w.start <= last
    && OnGrid(w.start, origin, step)
    && w.packets == InInterval(packets, w.start, w.end)
    && w.packets != []
  }

  predicate AllEmitted(ws: seq<Window>, packets: seq<Packet>, lo: real, last: real, origin: real, delta: real, step: real)
    requires step > 0.0
  {
    forall i :: 0 <= i < |ws| ==> Emitted(ws[i], packets, lo, last, origin, delta, step)
  }

  /** Window starts strictly increase. */
  predicate StartsIncrease(ws: seq<Window>)
  {
    forall i, j :: 0 <= i < j < |ws| ==> ws[i].start < ws[j].start
  }

  lemma {:induction false} WindowsFromShape(packets: seq<Packet>, cur: real, origin: real, last: real, delta: real, step: real)
    requires step > 0.0 && OnGrid(cur, origin, step)
    ensures AllEmitted(WindowsFrom(packets, cur, last, delta, step), packets, cur, last, origin, delta, step)
    decreases Remaining(cur, last, step)
  {
    if cur <= last {
      RemainingStep(cur, last, step);
      GridStep(cur, origin, step);
      WindowsFromShape(packets, cur + step, origin, last, delta, step);
      var here := InInterval(packets, cur, cur + delta);
      var head := if here == [] then [] else [Window(here, cur, cur + delta)];
      var rest := WindowsFrom(packets, cur + step, last, delta, step);
      var ws := WindowsFrom(packets, cur, last, delta, step);
      assert ws == head + rest;
      forall i | 0 <= i < |ws| ensures Emitted(ws[i], packets, cur, last, origin, delta, step) {
        if i < |head| {
          assert ws[i] == Window(here, cur, cur + delta);
        } else {
          assert ws[i] == rest[i - |head|];
          assert Emitted(rest[i - |head|], packets, cur + step, last, origin, delta, step);
        }
      }
    }
  }

  lemma {:induction false} WindowsFromIncreasing(packets: seq<Packet>, cur: real, last: real, delta: real, step: real)
    requires step > 0.0
    ensures StartsIncrease(WindowsFrom(packets, cur, last, delta, step))
    decreases Remaining(cur, last, step)
  {
    if cur <= last {
      RemainingStep(cur, last, step);
      WindowsFromIncreasing(packets, cur + step, last, delta, step);
      assert OnGrid(cur + step, cur + step, step);
      WindowsFromShape(packets, cur + step, cur + step, last, delta, step);
      var here := InInterval(packets, cur, cur + delta);
      var head := if here == [] then [] else [Window(here, cur, cur + delta)];
      var rest := WindowsFrom(packets, cur + step, last, delta, step);
      var ws := WindowsFrom(packets, cur, last, delta, step);
      assert ws == head + rest;
      forall i, j | 0 <= i < j < |ws| ensures ws[i].start < ws[j].start {
        if i >= |head| {
          assert ws[i] == rest[i - |head|] && ws[j] == rest[j - |head|];
        } else {
          assert ws[i].start == cur && ws[j] == rest[j - 1];
          assert Emitted(rest[j - 1], packets, cur + step, last, cur + step, delta, step);
        }
      }
    }
  }

  /** The properties of window_packets' result: nothing from an empty
      capture; otherwise every window spans delta seconds from a start
      first + k * (delta - overlap) that is at most the last packet's time,
      holds exactly the packets of its interval (at least one), and the
      starts strictly increase. */
  lemma WindowsProperties(packets: seq<Packet>, delta: real, overlap: real)
    requires delta > overlap
    ensures packets == [] ==> Windows(packets, delta, overlap) == []
    ensures packets != [] ==>
              AllEmitted(Windows(packets, delta, overlap), packets, packets[0].time, packets[|packets| - 1].time,
                         packets[0].time, delta, delta - overlap)
    ensures StartsIncrease(Windows(packets, delta, overlap))
  {
    if packets != [] {
      var first, last, step := packets[0].time, packets[|packets| - 1].time, delta - overlap;
      assert OnGrid(first, first, step);
      WindowsFromShape(packets, first, first, last, delta, step);
      WindowsFromIncreasing(packets, first, last, delta, step);
    }
  }

  /** The window starts, in order. */
  function Starts(ws: seq<Window>): (starts: seq<real>)
    ensures |starts| == |ws| && forall i :: 0 <= i < |ws| ==> starts[i] == ws[i].start
  {
    seq(|ws|, i requires 0 <= i < |ws| => ws[i].start)
  }

  /** Packets t0 + 0, 1, 2, 3, 10, 11 and 12 seconds into a capture. */
  function Sample(t0: real): seq<Packet>
  {
    [Packet(t0, 60, None), Packet(t0 + 1.0, 60, None), Packet(t0 + 2.0, 60, None), Packet(t0 + 3.0, 60, None),
     Packet(t0 + 10.0, 60, None), Packet(t0 + 11.0, 60, None), Packet(t0 + 12.0, 60, None)]
  }

  /** With 5-second windows overlapping by 2 seconds the starts advance by
      3: windows start 0, 3, 6, 9 and 12 seconds in, and none is empty (the
      one at 6 holds only the packet at 10). */
  lemma SampleWindows(t0: real)
    ensures Starts(Windows(Sample(t0), 5.0, 2.0)) == [t0, t0 + 3.0, t0 + 6.0, t0 + 9.0, t0 + 12.0]
  {
    var p, last := Sample(t0), t0 + 12.0;
    var later := [t0 + 6.0, t0 + 9.0, t0 + 12.0];
    SampleLaterWindows(t0);
    SampleStep(t0, t0 + 3.0, t0 + 6.0, 3, later);
    SampleStep(t0, t0, t0 + 3.0, 0, [t0 + 3.0] + later);
    ConsTwice(t0, t0 + 3.0, later);
    assert p[0].time == t0 && p[|p| - 1].time == last;
    assert Windows(p, 5.0, 2.0) == WindowsFrom(p, t0, last, 5.0, 3.0);
  }

  /** The windows from 6 seconds in start at 6, 9 and 12. */
  lemma SampleLaterWindows(t0: real)
    ensures Starts(WindowsFrom(Sample(t0), t0 + 6.0, t0 + 12.0, 5.0, 3.0)) == [t0 + 6.0, t0 + 9.0, t0 + 12.0]
  {
    assert Starts(WindowsFrom(Sample(t0), t0 + 15.0, t0 + 12.0, 5.0, 3.0)) == [];
    SampleStep(t0, t0 + 12.0, t0 + 15.0, 6, []);
    SampleStep(t0, t0 + 9.0, t0 + 12.0, 4, [t0 + 12.0] + []);
    SampleStep(t0, t0 + 6.0, t0 + 9.0, 4, [t0 + 9.0] + ([t0 + 12.0] + []));
    ConsThrice(t0 + 6.0, t0 + 9.0, t0 + 12.0);
  }

  lemma ConsTwice(a: real, b: real, rest: seq<real>)
    requires |rest| == 3
    ensures [a] + ([b] + rest) == [a, b, rest[0], rest[1], rest[2]]
  {
  }

  lemma ConsThrice(a: real, b: real, c: real)
    ensures [a] + ([b] + ([c] + [])) == [a, b, c]
  {
  }

  /** The sample's window at start cur holds packet k, so its start comes
      before the later ones. */
  lemma SampleStep(t0: real, cur: real, next: real, k: nat, later: seq<real>)
    requires cur <= t0 + 12.0 && next == cur + 3.0 && k < 7 && cur <= Sample(t0)[k].time < cur + 5.0
    requires Starts(WindowsFrom(Sample(t0), next, t0 + 12.0, 5.0, 3.0)) == later
    ensures Starts(WindowsFrom(Sample(t0), cur, t0 + 12.0, 5.0, 3.0)) == [cur] + later
  {
    var p := Sample(t0);
    WindowsFromStep(p, cur, t0 + 12.0, 5.0, 3.0);
    assert p[k] in InInterval(p, cur, cur + 5.0);
    var w := Window(InInterval(p, cur, cur + 5.0), cur, cur + 5.0);
    StartsCons(w, WindowsFrom(p, next, t0 + 12.0, 5.0, 3.0));
  }

  lemma StartsCons(w: Window, rest: seq<Window>)
    ensures Starts([w] + rest) == [w.start] + Starts(rest)
  {
  }

  // ---------------------------------------------------------------------
  // The validity check of classify_window

  predicate IsOutgoing(p: Packet, devices: seq<string>)
  {
    p.ip.Some? && p.ip.value.src in devices
  }

  predicate IsIncoming(p: Packet, devices: seq<string>)
  {
    p.ip.Some? && p.ip.value.dst in devices
  }

  /** [pkt for pkt in window if pkt.haslayer(IP) and pkt[IP].src in devices] */
  function OutgoingPackets(window: seq<Packet>, devices: seq<string>): seq<Packet>
  {
    Filter(window, (p: Packet) => IsOutgoing(p, devices))
  }

  /** [pkt for pkt in window if pkt.haslayer(IP) and pkt[IP].dst in devices] */
  function IncomingPackets(window: seq<Packet>, devices: seq<string>): seq<Packet>
  {
    Filter(window, (p: Packet) => IsIncoming(p, devices))
  }

  /** The feature row classify_window hands to the models, or None when the
      window has no outgoing or no incoming packet. The row covers the whole
      window, non-IP packets included. */
  function ClassifyWindowFeatures(window: seq<Packet>, devices: seq<string>, est: Features.Estimators): (r: Option<seq<Features.Value>>)
    ensures r.None? <==> (forall i :: 0 <= i < |window| ==> !IsOutgoing(window[i], devices))
                         || (forall i :: 0 <= i < |window| ==> !IsIncoming(window[i], devices))
    ensures r.Some? ==> |r.value| == 39
                        && r.value[22] == Features.Num(|window| as real)
                        && r.value[24] == Features.Num(|OutgoingPackets(window, devices)| as real)
                        && r.value[25] == Features.Num(|IncomingPackets(window, devices)| as real)
    ensures r.Some? ==> var outgoing, incoming := OutgoingPackets(window, devices), IncomingPackets(window, devices);
                        |window| > 0 && |outgoing| > 0 && |incoming| > 0
                        && r.value == Features.ComputeStatisticalFeatures(window, incoming, outgoing, est)
  {
    var outgoing := OutgoingPackets(window, devices);
    var incoming := IncomingPackets(window, devices);
    FilterEmpty(window, (p: Packet) => IsOutgoing(p, devices));
    FilterEmpty(window, (p: Packet) => IsIncoming(p, devices));
    if outgoing == [] || incoming == [] then None
    else Some(Features.ComputeStatisticalFeatures(window, incoming, outgoing, est))
  }

  /** A packet between two listed devices counts in both directions; a
      packet without an IP layer counts in neither. */
  lemma DirectionsOfPacket(window: seq<Packet>, devices: seq<string>, p: Packet)
    requires p in window
    ensures p in OutgoingPackets(window, devices) <==> p.ip.Some? && p.ip.value.src in devices
    ensures p in IncomingPackets(window, devices) <==> p.ip.Some? && p.ip.value.dst in devices
  {
  }
}

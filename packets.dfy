/** A captured packet as the pipeline reads it: capture time, byte length
    (Python's len(packet)), and the source/destination addresses of its IP
    layer when it has one. */
module Packets {
  import opened Wrappers

  datatype IpHeader = IpHeader(src: string, dst: string)

  datatype Packet = Packet(time: real, length: nat, ip: Option<IpHeader>)

  /** [len(packet) for packet in packets], as reals for the statistics. */
  function Lengths(packets: seq<Packet>): (lengths: seq<real>)
    ensures |lengths| == |packets|
    ensures forall i :: 0 <= i < |packets| ==> lengths[i] == packets[i].length as real
  {
    seq(|packets|, i requires 0 <= i < |packets| => packets[i].length as real)
  }

  /** [x for x in s if keep(x)] and list(filter(keep, s)): the elements
      that pass, in their original order. */
  function Filter<T(!new)>(s: seq<T>, keep: T -> bool): (r: seq<T>)
    ensures |r| <= |s|
    ensures forall x :: x in r <==> x in s && keep(x)
  {
    if s == [] then []
    else (if keep(s[0]) then [s[0]] else []) + Filter(s[1..], keep)
  }

  /** Filtering works piece by piece, so it keeps the input order. */
  lemma {:induction false} FilterAppend<T(!new)>(a: seq<T>, b: seq<T>, keep: T -> bool)
    ensures Filter(a + b, keep) == Filter(a, keep) + Filter(b, keep)
  {
    if a == [] {
      assert a + b == b;
    } else {
      assert (a + b)[0] == a[0];
      assert (a + b)[1..] == a[1..] + b;
      FilterAppend(a[1..], b, keep);
    }
  }

  /** Nothing passes exactly when no element is kept. */
  lemma FilterEmpty<T(!new)>(s: seq<T>, keep: T -> bool)
    ensures Filter(s, keep) == [] <==> forall i :: 0 <= i < |s| ==> !keep(s[i])
  {
    if Filter(s, keep) == [] {
      forall i | 0 <= i < |s| ensures !keep(s[i]) {
        assert s[i] in s;
      }
    } else {
      var x := Filter(s, keep)[0];
      assert x in Filter(s, keep);
    }
  }
}

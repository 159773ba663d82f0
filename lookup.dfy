/** The ordered substring lookup shared by every configuration table of the
    pipeline: the entries are tried in listed order and the first pattern
    that occurs in the (already lower-cased) input decides the result. */
module Lookup {
  import opened Wrappers
  import opened Text

  /** An ordered table of (pattern, value) pairs, as a Python dict literal
      iterated with .items() (insertion order). */
  type Table<V> = seq<(string, V)>

  /** Index of the first entry at or after k whose pattern occurs in s, or
      |table| when none does. */
  function FirstIndexFrom<V>(table: Table<V>, s: string, k: nat): (r: nat)
    requires k <= |table|
    ensures k <= r <= |table|
    ensures forall i :: k <= i < r ==> !Contains(s, table[i].0)
    ensures r < |table| ==> Contains(s, table[r].0)
    decreases |table| - k
  {
    if k == |table| then k
    else if Contains(s, table[k].0) then k
    else FirstIndexFrom(table, s, k + 1)
  }

  /** The loop `for pattern, value in table.items(): if pattern in s: return value`,
      falling through to None (the caller's sentinel -1). */
  function FirstMatch<V>(table: Table<V>, s: string): (r: Option<V>)
  {
    var k := FirstIndexFrom(table, s, 0);
    if k < |table| then Some(table[k].1) else None
  }

  /** The entry at index k decides the lookup when its pattern occurs and no
      earlier pattern does, whatever later patterns also occur. */
  lemma FirstMatchAt<V>(table: Table<V>, s: string, k: nat)
    requires k < |table| && Contains(s, table[k].0)
    requires forall i :: 0 <= i < k ==> !Contains(s, table[i].0)
    ensures FirstMatch(table, s) == Some(table[k].1)
  {
  }

  /** The lookup misses exactly when no pattern of the table occurs. */
  lemma FirstMatchNone<V>(table: Table<V>, s: string)
    ensures FirstMatch(table, s).None? <==> forall i :: 0 <= i < |table| ==> !Contains(s, table[i].0)
  {
  }

  /** A hit is the value of some entry whose pattern occurs, with no earlier
      pattern occurring. */
  lemma FirstMatchSome<V>(table: Table<V>, s: string)
    requires FirstMatch(table, s).Some?
    ensures exists k :: 0 <= k < |table| && Contains(s, table[k].0)
                        && FirstMatch(table, s).value == table[k].1
                        && forall i :: 0 <= i < k ==> !Contains(s, table[i].0)
  {
    var k := FirstIndexFrom(table, s, 0);
    assert Contains(s, table[k].0);
  }
}

/**
 * The types of markov_chain.h, laid out as an arena: the database is a
 * sequence of word nodes in insertion order, and a reference to a node
 * (a `MarkovNode*` or the list `Node*` wrapping it) is its index in that
 * sequence. A NULL reference is `None`.
 */
module ChainTypes {

  datatype Option<T> = None | Some(value: T)

  /** One entry of a frequency list: the successor node and how often it followed. */
  datatype NodeFrequency = NodeFrequency(markovNode: nat, frequency: nat)

  /**
   * A word node. An empty `frequencyList` stands for the NULL list a node
   * has before its first transition is recorded.
   */
  datatype MarkovNode = MarkovNode(data: string, frequencyList: seq<NodeFrequency>)

  /** The terminal-word test `data[strlen(data) - 1] == '.'`. */
  predicate EndsWithPeriod(s: string) {
    |s| > 0 && s[|s| - 1] == '.'
  }

  /** The texts of the database, in insertion order. */
  function Texts(db: seq<MarkovNode>): (r: seq<string>)
    ensures |r| == |db|
  {
    seq(|db|, i requires 0 <= i < |db| => db[i].data)
  }

  /** `t` is the target of some entry of `list`. */
  predicate HasTarget(list: seq<NodeFrequency>, t: nat) {
    exists k :: 0 <= k < |list| && list[k].markovNode == t
  }

  /** Sum of all frequencies of a list (the `total_frequency` of the sampler). */
  function Sum(list: seq<NodeFrequency>): nat {
    if list == [] then 0 else list[0].frequency + Sum(list[1..])
  }

  /** How often the transition to `t` was recorded in `list` (0 when it never was). */
  function Frequency(list: seq<NodeFrequency>, t: nat): nat {
    if list == [] then 0
    else (if list[0].markovNode == t then list[0].frequency else 0) + Frequency(list[1..], t)
  }

  /** No two nodes of the database carry the same text. */
  predicate DistinctTexts(db: seq<MarkovNode>) {
    forall i, j :: 0 <= i < j < |db| ==> db[i].data != db[j].data
  }

  /** Every target of `list` is a node of a database of `size` nodes, and every frequency is at least 1. */
  predicate TargetsInRange(list: seq<NodeFrequency>, size: nat) {
    forall k :: 0 <= k < |list| ==> list[k].markovNode < size && list[k].frequency >= 1
  }

  /** A well-formed frequency list: targets in range, frequencies at least 1, and no target twice. */
  predicate ValidList(list: seq<NodeFrequency>, size: nat) {
    && TargetsInRange(list, size)
    && (forall k, l :: 0 <= k < l < |list| ==> list[k].markovNode != list[l].markovNode)
  }

  /** Every frequency list of the database points into it: all a random walk needs. */
  predicate Linked(db: seq<MarkovNode>) {
    forall i :: 0 <= i < |db| ==> TargetsInRange(db[i].frequencyList, |db|)
  }

  /** The invariant the chain keeps: distinct non-empty texts and well-formed lists. */
  predicate ValidDb(db: seq<MarkovNode>) {
    && DistinctTexts(db)
    && (forall i :: 0 <= i < |db| ==> |db[i].data| > 0 && ValidList(db[i].frequencyList, |db|))
  }

  /** Every node whose text ends in '.' has an empty frequency list. */
  predicate NoEdgesFromTerminal(db: seq<MarkovNode>) {
    forall i :: 0 <= i < |db| && EndsWithPeriod(db[i].data) ==> db[i].frequencyList == []
  }

  /** `Sum` splits at the last entry, the way the sampler's loops accumulate it. */
  lemma {:induction false} SumSnoc(list: seq<NodeFrequency>, i: nat)
    requires i < |list|
    ensures Sum(list[..i + 1]) == Sum(list[..i]) + list[i].frequency
  {
    if i == 0 {
      assert list[..1][1..] == [];
    } else {
      assert list[..i + 1][1..] == list[1..][..i];
      assert list[..i][1..] == list[1..][..i - 1];
      SumSnoc(list[1..], i - 1);
    }
  }

  /** With no entry for `t`, its frequency is 0. */
  lemma {:induction false} FrequencyAbsent(list: seq<NodeFrequency>, t: nat)
    requires !HasTarget(list, t)
    ensures Frequency(list, t) == 0
  {
    if list != [] {
      assert !HasTarget(list[1..], t) by {
        forall k | 0 <= k < |list[1..]| ensures list[1..][k].markovNode != t {
          assert list[1..][k] == list[k + 1];
        }
      }
      FrequencyAbsent(list[1..], t);
    }
  }

  /**
   * In a list without duplicate targets, the frequency of an entry's target
   * is that entry's `frequency` field: the field counts the transition.
   */
  lemma {:induction false} FrequencyOfEntry(list: seq<NodeFrequency>, size: nat, k: nat)
    requires ValidList(list, size) && k < |list|
    ensures Frequency(list, list[k].markovNode) == list[k].frequency
  {
    var t := list[k].markovNode;
    assert ValidList(list[1..], size) by {
      forall a, b | 0 <= a < b < |list[1..]|
        ensures list[1..][a].markovNode != list[1..][b].markovNode
      {
        assert list[1..][a] == list[a + 1] && list[1..][b] == list[b + 1];
      }
    }
    if k == 0 {
      assert !HasTarget(list[1..], t) by {
        forall j | 0 <= j < |list[1..]| ensures list[1..][j].markovNode != t {
          assert list[1..][j] == list[j + 1];
        }
      }
      FrequencyAbsent(list[1..], t);
    } else {
      assert list[0].markovNode != t;
      assert list[1..][k - 1] == list[k];
      FrequencyOfEntry(list[1..], size, k - 1);
    }
  }

  /** Incrementing entry `k` raises the frequency of its target by one and of nothing else. */
  lemma {:induction false} FrequencyBump(list: seq<NodeFrequency>, k: nat, t: nat)
    requires k < |list|
    ensures Frequency(list[k := list[k].(frequency := list[k].frequency + 1)], t)
         == Frequency(list, t) + (if list[k].markovNode == t then 1 else 0)
    ensures Sum(list[k := list[k].(frequency := list[k].frequency + 1)]) == Sum(list) + 1
  {
    var bumped := list[k := list[k].(frequency := list[k].frequency + 1)];
    if k > 0 {
      assert bumped[1..] == list[1..][k - 1 := list[k].(frequency := list[k].frequency + 1)];
      FrequencyBump(list[1..], k - 1, t);
    } else {
      assert bumped[1..] == list[1..];
    }
  }

  /** Appending an entry adds its frequency to its own target and to the total. */
  lemma {:induction false} FrequencyAppend(list: seq<NodeFrequency>, e: NodeFrequency, t: nat)
    ensures Frequency(list + [e], t) == Frequency(list, t) + (if e.markovNode == t then e.frequency else 0)
    ensures Sum(list + [e]) == Sum(list) + e.frequency
  {
    if list == [] {
      assert ([] + [e])[1..] == [];
    } else {
      assert (list + [e])[1..] == list[1..] + [e];
      FrequencyAppend(list[1..], e, t);
    }
  }
}

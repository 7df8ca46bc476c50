/**
 * Value-level definitions of the operations of markov_chain.c. The methods
 * of `Chain.MarkovChain` are proved against these, and the properties the
 * source promises are proved about them here.
 */
module ChainSpec {
  import opened ChainTypes

  /**
   * get_random_number: the C library `rand()` value is an input, and the
   * result is that value reduced into [0, maxNumber).
   */
  function GetRandomNumber(randValue: nat, maxNumber: nat): (r: nat)
    requires maxNumber > 0
    ensures r < maxNumber
    ensures randValue < maxNumber ==> r == randValue
  {
    randValue % maxNumber
  }

  /** The first node whose text is `data`, or None when no node has it. */
  function Lookup(db: seq<MarkovNode>, data: string): (r: Option<nat>)
    ensures r.Some? ==> r.value < |db| && db[r.value].data == data
  {
    if db == [] then None
    else if db[0].data == data then Some(0)
    else
      match Lookup(db[1..], data)
      case None => None
      case Some(i) => Some(i + 1)
  }

  /**
   * Lookup is first-match search: what it finds has the text and no earlier
   * node has it, and it finds nothing exactly when no node has the text.
   */
  lemma {:induction false} LookupSpec(db: seq<MarkovNode>, data: string)
    ensures var r := Lookup(db, data);
      && (r.Some? ==> forall j :: 0 <= j < r.value ==> db[j].data != data)
      && (r.None? <==> forall j :: 0 <= j < |db| ==> db[j].data != data)
  {
    if db != [] && db[0].data != data {
      LookupSpec(db[1..], data);
      assert forall j :: 1 <= j < |db| ==> db[j] == db[1..][j - 1];
    }
  }

  /** In a database with distinct texts, every node is found by its own text. */
  lemma {:induction false} LookupOwnText(db: seq<MarkovNode>, i: nat)
    requires DistinctTexts(db) && i < |db|
    ensures Lookup(db, db[i].data) == Some(i)
  {
    LookupSpec(db, db[i].data);
  }

  /** The first entry of `list` whose target is `t`, compared by identity. */
  function EntryOf(list: seq<NodeFrequency>, t: nat): (r: Option<nat>)
    ensures r.Some? ==> r.value < |list| && list[r.value].markovNode == t
  {
    if list == [] then None
    else if list[0].markovNode == t then Some(0)
    else
      match EntryOf(list[1..], t)
      case None => None
      case Some(k) => Some(k + 1)
  }

  /**
   * EntryOf is first-match search over the targets: no earlier entry has the
   * target, and it finds nothing exactly when no entry has it.
   */
  lemma {:induction false} EntryOfSpec(list: seq<NodeFrequency>, t: nat)
    ensures var r := EntryOf(list, t);
      && (r.Some? ==> forall k :: 0 <= k < r.value ==> list[k].markovNode != t)
      && (r.None? <==> !HasTarget(list, t))
  {
    if list != [] && list[0].markovNode != t {
      EntryOfSpec(list[1..], t);
      assert forall k :: 1 <= k < |list| ==> list[k] == list[1..][k - 1];
    }
  }

  /** The outcome of add_to_database: the new database and the node, None on failure. */
  datatype AddResult = AddResult(db: seq<MarkovNode>, node: Option<nat>)

  /**
   * add_to_database on a database value. `allocOk` is the allocator's answer
   * for the node and the copy of its text.
   */
  function Added(db: seq<MarkovNode>, data: string, allocOk: bool): (r: AddResult)
    ensures r.node.Some? ==> r.node.value < |r.db| && r.db[r.node.value].data == data
    ensures |db| <= |r.db|
  {
    match Lookup(db, data)
    case Some(n) => AddResult(db, Some(n))
    case None =>
      if !allocOk then AddResult(db, None)
      else AddResult(db + [MarkovNode(data, [])], Some(|db|))
  }

  /**
   * What one call of add_to_database does: for a known text it returns that
   * node and changes nothing; for a new text it appends exactly one node at
   * the end, holding a copy of the text and no transitions, leaves the
   * earlier nodes alone and returns the last node; when the allocator
   * refuses it returns NULL and changes nothing.
   */
  lemma {:induction false} AddedEffect(db: seq<MarkovNode>, data: string, allocOk: bool)
    ensures var r := Added(db, data, allocOk);
      && (Lookup(db, data).Some? ==> r.db == db && r.node == Lookup(db, data))
      && (Lookup(db, data).None? && allocOk ==>
            && |r.db| == |db| + 1 && r.db[..|db|] == db
            && r.db[|db|] == MarkovNode(data, []) && r.node == Some(|db|))
      && (Lookup(db, data).None? && !allocOk ==> r.db == db && r.node.None?)
      && (r.node.None? <==> Lookup(db, data).None? && !allocOk)
  {
    var r := Added(db, data, allocOk);
    if Lookup(db, data).None? && allocOk {
      assert r.db[..|db|] == db;
    }
  }

  /**
   * The texts after add_to_database: the same when the text was known or
   * the allocator refused, and one more text at the end otherwise.
   */
  lemma {:induction false} AddedTexts(db: seq<MarkovNode>, data: string, allocOk: bool)
    ensures Texts(Added(db, data, allocOk).db) ==
              if data in Texts(db) || !allocOk then Texts(db) else Texts(db) + [data]
  {
    LookupSpec(db, data);
    match Lookup(db, data)
    case Some(n) =>
      assert Texts(db)[n] == data;
    case None =>
      assert data !in Texts(db) by {
        forall j | 0 <= j < |db| ensures Texts(db)[j] != data { }
      }
      if allocOk {
        assert Texts(db + [MarkovNode(data, [])]) == Texts(db) + [data];
      }
  }

  /** add_to_database never changes a node that was already there. */
  lemma {:induction false} AddedPrefix(db: seq<MarkovNode>, data: string, allocOk: bool)
    ensures forall i :: 0 <= i < |db| ==> Added(db, data, allocOk).db[i] == db[i]
  {
  }

  /**
   * add_to_database keeps the database valid, so texts stay pairwise
   * distinct, and adds no transition out of any node.
   */
  lemma {:induction false} AddedValid(db: seq<MarkovNode>, data: string, allocOk: bool)
    requires ValidDb(db) && |data| > 0
    ensures ValidDb(Added(db, data, allocOk).db)
    ensures NoEdgesFromTerminal(db) ==> NoEdgesFromTerminal(Added(db, data, allocOk).db)
  {
    LookupSpec(db, data);
    if Lookup(db, data).None? && allocOk {
      var db' := db + [MarkovNode(data, [])];
      forall i | 0 <= i < |db'| ensures ValidList(db'[i].frequencyList, |db'|) {
        if i < |db| { assert db'[i] == db[i]; }
      }
    }
  }

  /** The outcome of add_node_to_frequency_list: the new database and the status code. */
  datatype RecordResult = RecordResult(db: seq<MarkovNode>, code: int)

  /**
   * add_node_to_frequency_list on a database value: record one transition
   * from `first` to `second`. `allocOk` is the allocator's answer for
   * growing the list.
   */
  function Recorded(db: seq<MarkovNode>, first: Option<nat>, second: Option<nat>, allocOk: bool): (r: RecordResult)
    requires first.Some? ==> first.value < |db|
    ensures |r.db| == |db| && (r.code == 0 || r.code == 1)
  {
    if first.None? || second.None? then RecordResult(db, 1)
    else
      var f := first.value;
      var list := db[f].frequencyList;
      match EntryOf(list, second.value)
      case Some(k) =>
        RecordResult(db[f := db[f].(frequencyList := list[k := list[k].(frequency := list[k].frequency + 1)])], 0)
      case None =>
        if !allocOk then RecordResult(db, 1)
        else RecordResult(db[f := db[f].(frequencyList := list + [NodeFrequency(second.value, 1)])], 0)
  }

  /**
   * What one call of add_node_to_frequency_list does: it fails (1, nothing
   * changes) exactly on a NULL argument or when a new entry is needed and the
   * allocator refuses; otherwise (0) every text and every other node stays,
   * an existing entry for the target gains exactly 1 with the list length and
   * the other entries unchanged, and a new target is appended after all
   * existing entries with frequency 1.
   */
  lemma {:induction false} RecordedEffect(db: seq<MarkovNode>, first: Option<nat>, second: Option<nat>, allocOk: bool)
    requires ValidDb(db) && (first.Some? ==> first.value < |db|)
    ensures var r := Recorded(db, first, second, allocOk);
      && (r.code == 0 || r.code == 1)
      && (r.code == 1 <==>
            first.None? || second.None? ||
            (!allocOk && !HasTarget(db[first.value].frequencyList, second.value)))
      && (r.code == 1 ==> r.db == db)
      && |r.db| == |db| && Texts(r.db) == Texts(db)
      && (forall i :: 0 <= i < |db| && Some(i) != first ==> r.db[i] == db[i])
      && (r.code == 0 ==>
            var list := db[first.value].frequencyList;
            var list' := r.db[first.value].frequencyList;
            && (HasTarget(list, second.value) ==>
                  && |list'| == |list|
                  && forall k :: 0 <= k < |list| ==>
                       list'[k] == if list[k].markovNode == second.value
                                   then list[k].(frequency := list[k].frequency + 1) else list[k])
            && (!HasTarget(list, second.value) ==> list' == list + [NodeFrequency(second.value, 1)]))
  {
    var r := Recorded(db, first, second, allocOk);
    if first.Some? && second.Some? {
      var list := db[first.value].frequencyList;
      EntryOfSpec(list, second.value);
      match EntryOf(list, second.value)
      case Some(k) =>
        assert forall j :: 0 <= j < |list| && j != k ==> list[j].markovNode != second.value;
      case None =>
    }
    RecordedTexts(db, first, second, allocOk);
  }

  /** add_node_to_frequency_list changes no text. */
  lemma {:induction false} RecordedTexts(db: seq<MarkovNode>, first: Option<nat>, second: Option<nat>, allocOk: bool)
    requires first.Some? ==> first.value < |db|
    ensures Texts(Recorded(db, first, second, allocOk).db) == Texts(db)
  {
    var r := Recorded(db, first, second, allocOk);
    assert forall i :: 0 <= i < |db| ==> r.db[i].data == db[i].data;
  }

  /**
   * A successful call raises the frequency of the transition first -> second
   * by exactly 1 and leaves every other transition's frequency alone, so the
   * total frequency of `first` also rises by exactly 1.
   */
  lemma {:induction false} RecordedFrequencies(db: seq<MarkovNode>, first: Option<nat>, second: Option<nat>, allocOk: bool)
    requires first.Some? ==> first.value < |db|
    requires Recorded(db, first, second, allocOk).code == 0
    ensures var r := Recorded(db, first, second, allocOk);
      && first.Some? && second.Some?
      && (forall a: nat, t: nat :: a < |db| ==>
            Frequency(r.db[a].frequencyList, t)
              == Frequency(db[a].frequencyList, t) + (if Some(a) == first && Some(t) == second then 1 else 0))
      && Sum(r.db[first.value].frequencyList) == Sum(db[first.value].frequencyList) + 1
  {
    var r := Recorded(db, first, second, allocOk);
    var f, s := first.value, second.value;
    var list := db[f].frequencyList;
    match EntryOf(list, s)
    case Some(k) =>
      forall t ensures Frequency(r.db[f].frequencyList, t) == Frequency(list, t) + (if t == s then 1 else 0) {
        FrequencyBump(list, k, t);
      }
      FrequencyBump(list, k, s);
    case None =>
      forall t ensures Frequency(r.db[f].frequencyList, t) == Frequency(list, t) + (if t == s then 1 else 0) {
        FrequencyAppend(list, NodeFrequency(s, 1), t);
      }
      FrequencyAppend(list, NodeFrequency(s, 1), s);
  }

  /**
   * Recording a transition between two nodes of a valid database keeps it
   * valid: no duplicate targets, every frequency at least 1, every target a
   * node; and it records nothing out of a node whose text ends in '.' when
   * `first` is not such a node.
   */
  lemma {:induction false} RecordedValid(db: seq<MarkovNode>, first: Option<nat>, second: Option<nat>, allocOk: bool)
    requires ValidDb(db)
    requires first.Some? ==> first.value < |db|
    requires second.Some? ==> second.value < |db|
    ensures ValidDb(Recorded(db, first, second, allocOk).db)
    ensures NoEdgesFromTerminal(db) && (first.Some? ==> !EndsWithPeriod(db[first.value].data)) ==>
              NoEdgesFromTerminal(Recorded(db, first, second, allocOk).db)
  {
    var r := Recorded(db, first, second, allocOk);
    if first.Some? && second.Some? {
      var f, s := first.value, second.value;
      var list := db[f].frequencyList;
      EntryOfSpec(list, s);
      match EntryOf(list, s)
      case Some(k) =>
        var list' := r.db[f].frequencyList;
        assert forall j :: 0 <= j < |list| ==> list'[j].markovNode == list[j].markovNode;
        assert ValidList(list', |db|);
      case None =>
        if allocOk {
          var list' := list + [NodeFrequency(s, 1)];
          assert forall j :: 0 <= j < |list| ==> list'[j] == list[j];
          assert ValidList(list', |db|);
        }
      assert forall i :: 0 <= i < |db| ==> r.db[i].data == db[i].data && (i != f ==> r.db[i] == db[i]);
    }
  }

  /**
   * The index of the entry inverse-CDF sampling picks for a draw below the
   * total frequency: the first entry whose running sum exceeds the draw.
   */
  function Pick(list: seq<NodeFrequency>, draw: nat): (i: nat)
    requires draw < Sum(list)
    ensures i < |list|
  {
    if draw < list[0].frequency then 0
    else Pick(list[1..], draw - list[0].frequency) + 1
  }

  /** The prefix sums before and after the picked entry bracket the draw. */
  lemma {:induction false} PickBracket(list: seq<NodeFrequency>, draw: nat)
    requires draw < Sum(list)
    ensures var i := Pick(list, draw); Sum(list[..i]) <= draw < Sum(list[..i + 1])
  {
    assert list[..1][1..] == [];
    if draw >= list[0].frequency {
      var i := Pick(list[1..], draw - list[0].frequency);
      PickBracket(list[1..], draw - list[0].frequency);
      assert list[..i + 1][1..] == list[1..][..i];
      assert list[..i + 2][1..] == list[1..][..i + 1];
    }
  }

  /** Prefix sums never decrease. */
  lemma {:induction false} SumPrefixMonotone(list: seq<NodeFrequency>, j: nat, i: nat)
    requires j <= i <= |list|
    ensures Sum(list[..j]) <= Sum(list[..i])
    decreases i - j
  {
    if j < i {
      SumSnoc(list, j);
      SumPrefixMonotone(list, j + 1, i);
    }
  }

  /**
   * Pick is the inverse-CDF rule: the only index whose prefix sums bracket
   * the draw, so the sampler's scan, which stops at the first running sum
   * above the draw, stops exactly there.
   */
  lemma {:induction false} PickUnique(list: seq<NodeFrequency>, draw: nat, i: nat)
    requires i < |list| && Sum(list[..i]) <= draw < Sum(list[..i + 1])
    ensures draw < Sum(list) && Pick(list, draw) == i
  {
    SumPrefixMonotone(list, i + 1, |list|);
    assert list[..|list|] == list;
    var p := Pick(list, draw);
    PickBracket(list, draw);
    if p < i {
      SumPrefixMonotone(list, p + 1, i);
    } else if p > i {
      SumPrefixMonotone(list, i + 1, p);
    }
  }

  /**
   * get_next_random_node on a node's list: NULL for an empty list, otherwise
   * the target Pick chooses for the draw `rand() % total_frequency`.
   */
  function NextNode(list: seq<NodeFrequency>, randValue: nat): (r: Option<nat>)
    requires forall k :: 0 <= k < |list| ==> list[k].frequency >= 1
    ensures r.None? <==> list == []
    ensures r.Some? ==> HasTarget(list, r.value)
  {
    if list == [] then None
    else
      var i := Pick(list, GetRandomNumber(randValue, Sum(list)));
      Some(list[i].markovNode)
  }

  /**
   * get_first_random_node on a database value, with its retries drawing from
   * `draws`: the node at index `draws[k] % size` for the first draw that
   * lands on a word not ending in '.', and None for an empty database or when
   * the draws run out.
   */
  function FirstRandom(db: seq<MarkovNode>, draws: seq<nat>): (r: Option<nat>)
    ensures r.Some? ==> r.value < |db| && !EndsWithPeriod(db[r.value].data)
    ensures r.Some? ==>
              exists k :: 0 <= k < |draws| && draws[k] % |db| == r.value &&
                forall j :: 0 <= j < k ==> EndsWithPeriod(db[draws[j] % |db|].data)
    ensures r.None? <==>
              |db| == 0 || forall k :: 0 <= k < |draws| ==> EndsWithPeriod(db[draws[k] % |db|].data)
  {
    if |db| == 0 || draws == [] then None
    else
      var i := GetRandomNumber(draws[0], |db|);
      if !EndsWithPeriod(db[i].data) then Some(i)
      else
        var r := FirstRandom(db, draws[1..]);
        assert forall k :: 1 <= k < |draws| ==> draws[k] == draws[1..][k - 1];
        r
  }

  /** With every word ending in '.', the start selection fails for every draw sequence. */
  lemma {:induction false} AllTerminalNoStart(db: seq<MarkovNode>, draws: seq<nat>)
    requires forall i :: 0 <= i < |db| ==> EndsWithPeriod(db[i].data)
    ensures FirstRandom(db, draws) == None
  {
  }

  /** A draw that lands on a word not ending in '.' always yields a start node. */
  lemma {:induction false} NonTerminalDrawStarts(db: seq<MarkovNode>, draws: seq<nat>, k: nat)
    requires k < |draws| && |db| > 0 && !EndsWithPeriod(db[draws[k] % |db|].data)
    ensures FirstRandom(db, draws).Some?
  {
  }

  /**
   * The nodes generate_tweet emits after `cur`, which was word number
   * `wordCount`; the call of get_next_random_node made at that point uses
   * the draw `rand(wordCount - 1)`.
   */
  function Walk(db: seq<MarkovNode>, cur: nat, wordCount: nat, maxLength: int, rand: nat -> nat): (path: seq<nat>)
    requires Linked(db) && cur < |db| && wordCount >= 1
    ensures forall j :: 0 <= j < |path| ==> path[j] < |db|
    decreases maxLength - wordCount
  {
    if wordCount >= maxLength || EndsWithPeriod(db[cur].data) then []
    else
      match NextNode(db[cur].frequencyList, rand(wordCount - 1))
      case None => []
      case Some(n) => [n] + Walk(db, n, wordCount + 1, maxLength, rand)
  }

  /** One step of the walk: the successor drawn, then the walk from it. */
  lemma {:induction false} WalkStep(db: seq<MarkovNode>, cur: nat, wordCount: nat, maxLength: int, rand: nat -> nat, prefix: seq<nat>)
    requires Linked(db) && cur < |db| && wordCount >= 1
    requires wordCount < maxLength && !EndsWithPeriod(db[cur].data)
    requires NextNode(db[cur].frequencyList, rand(wordCount - 1)).Some?
    ensures var n := NextNode(db[cur].frequencyList, rand(wordCount - 1)).value;
      n < |db| && prefix + Walk(db, cur, wordCount, maxLength, rand) == (prefix + [n]) + Walk(db, n, wordCount + 1, maxLength, rand)
  {
  }

  /** The nodes of a tweet: empty for a NULL start or `maxLength <= 0`. */
  function Path(db: seq<MarkovNode>, start: Option<nat>, maxLength: int, rand: nat -> nat): (path: seq<nat>)
    requires Linked(db) && (start.Some? ==> start.value < |db|)
    ensures forall j :: 0 <= j < |path| ==> path[j] < |db|
  {
    if start.None? || maxLength <= 0 then [] else [start.value] + Walk(db, start.value, 1, maxLength, rand)
  }

  /** The texts of a sequence of nodes. */
  function TextsOf(db: seq<MarkovNode>, path: seq<nat>): (words: seq<string>)
    requires forall j :: 0 <= j < |path| ==> path[j] < |db|
    ensures |words| == |path|
    ensures forall j :: 0 <= j < |path| ==> words[j] == db[path[j]].data
  {
    if path == [] then [] else [db[path[0]].data] + TextsOf(db, path[1..])
  }

  /** The words generate_tweet prints. */
  function Tweet(db: seq<MarkovNode>, start: Option<nat>, maxLength: int, rand: nat -> nat): (words: seq<string>)
    requires Linked(db) && (start.Some? ==> start.value < |db|)
    ensures start.None? || maxLength <= 0 ==> words == []
    ensures start.Some? && maxLength > 0 ==> |words| >= 1
  {
    TextsOf(db, Path(db, start, maxLength, rand))
  }

  /** The walk never emits more words than are left below `maxLength`. */
  lemma {:induction false} WalkLength(db: seq<MarkovNode>, cur: nat, wordCount: nat, maxLength: int, rand: nat -> nat)
    requires Linked(db) && cur < |db| && wordCount >= 1
    ensures wordCount + |Walk(db, cur, wordCount, maxLength, rand)| <= if wordCount < maxLength then maxLength else wordCount
    decreases maxLength - wordCount
  {
    if wordCount < maxLength && !EndsWithPeriod(db[cur].data) {
      match NextNode(db[cur].frequencyList, rand(wordCount - 1))
      case None =>
      case Some(n) => WalkLength(db, n, wordCount + 1, maxLength, rand);
    }
  }

  /**
   * Each word of `path` but the last is followed by a target of its own
   * frequency list, and does not end in '.'.
   */
  predicate FollowsEdges(db: seq<MarkovNode>, path: seq<nat>)
    requires forall j :: 0 <= j < |path| ==> path[j] < |db|
  {
    forall j :: 0 <= j < |path| - 1 ==>
      HasTarget(db[path[j]].frequencyList, path[j + 1]) && !EndsWithPeriod(db[path[j]].data)
  }

  /** Putting a node in front of a path that follows edges, along one of its own edges. */
  lemma {:induction false} FollowsEdgesCons(db: seq<MarkovNode>, cur: nat, path: seq<nat>)
    requires cur < |db| && path != [] && forall j :: 0 <= j < |path| ==> path[j] < |db|
    requires FollowsEdges(db, path)
    requires HasTarget(db[cur].frequencyList, path[0]) && !EndsWithPeriod(db[cur].data)
    ensures FollowsEdges(db, [cur] + path)
  {
    var p := [cur] + path;
    forall j | 0 <= j < |p| - 1
      ensures HasTarget(db[p[j]].frequencyList, p[j + 1]) && !EndsWithPeriod(db[p[j]].data)
    {
      if j > 0 {
        assert p[j] == path[j - 1] && p[j + 1] == path[j];
      }
    }
  }

  /**
   * In `[cur] + Walk(...)` each word is followed only by a target of its own
   * frequency list and never after a word ending in '.'.
   */
  lemma {:induction false} WalkSteps(db: seq<MarkovNode>, cur: nat, wordCount: nat, maxLength: int, rand: nat -> nat)
    requires Linked(db) && cur < |db| && wordCount >= 1
    ensures FollowsEdges(db, [cur] + Walk(db, cur, wordCount, maxLength, rand))
    decreases maxLength - wordCount
  {
    if wordCount < maxLength && !EndsWithPeriod(db[cur].data) {
      match NextNode(db[cur].frequencyList, rand(wordCount - 1))
      case None =>
      case Some(n) =>
        WalkSteps(db, n, wordCount + 1, maxLength, rand);
        FollowsEdgesCons(db, cur, [n] + Walk(db, n, wordCount + 1, maxLength, rand));
    }
  }

  /**
   * The walk ends on the length cap, on a word ending in '.', or on a node
   * with no successors (get_next_random_node returning NULL).
   */
  lemma {:induction false} WalkEnd(db: seq<MarkovNode>, cur: nat, wordCount: nat, maxLength: int, rand: nat -> nat)
    requires Linked(db) && cur < |db| && wordCount >= 1
    ensures var w := Walk(db, cur, wordCount, maxLength, rand);
      var last := if w == [] then cur else w[|w| - 1];
      wordCount + |w| >= maxLength || EndsWithPeriod(db[last].data) || db[last].frequencyList == []
    decreases maxLength - wordCount
  {
    if wordCount < maxLength && !EndsWithPeriod(db[cur].data) {
      match NextNode(db[cur].frequencyList, rand(wordCount - 1))
      case None =>
      case Some(n) =>
        WalkEnd(db, n, wordCount + 1, maxLength, rand);
        var w := Walk(db, n, wordCount + 1, maxLength, rand);
        assert w != [] ==> ([n] + w)[|w|] == w[|w| - 1];
    }
  }

  /**
   * generate_tweet's output has no words for a NULL start or `maxLength <= 0`,
   * and otherwise starts with the start node's text and has between 1 and
   * `maxLength` words.
   */
  lemma {:induction false} TweetLength(db: seq<MarkovNode>, start: Option<nat>, maxLength: int, rand: nat -> nat)
    requires Linked(db) && (start.Some? ==> start.value < |db|)
    ensures var t := Tweet(db, start, maxLength, rand);
      && (start.None? || maxLength <= 0 <==> t == [])
      && (t != [] ==> t[0] == db[start.value].data && 1 <= |t| <= maxLength)
  {
    if start.Some? && maxLength > 0 {
      WalkLength(db, start.value, 1, maxLength, rand);
    }
  }

  /**
   * Consecutive words of a tweet follow a recorded transition (the next word
   * is the text of a target in the previous word's frequency list), no word
   * follows a word ending in '.', and the walk stops early only on a word
   * ending in '.' or on a node whose list is empty (get_next_random_node
   * returning NULL).
   */
  lemma {:induction false} TweetSteps(db: seq<MarkovNode>, start: Option<nat>, maxLength: int, rand: nat -> nat)
    requires Linked(db) && (start.Some? ==> start.value < |db|)
    ensures var p := Path(db, start, maxLength, rand);
      && FollowsEdges(db, p)
      && (p != [] ==> |p| >= maxLength || EndsWithPeriod(db[p[|p| - 1]].data)
                      || db[p[|p| - 1]].frequencyList == [])
  {
    if start.Some? && maxLength > 0 {
      WalkSteps(db, start.value, 1, maxLength, rand);
      WalkEnd(db, start.value, 1, maxLength, rand);
    }
  }

  /**
   * The "at least two words" of the header holds only in this form: a start
   * not ending in '.', with at least one recorded successor, and a cap of at
   * least 2.
   */
  lemma {:induction false} TweetTwoWords(db: seq<MarkovNode>, start: nat, maxLength: int, rand: nat -> nat)
    requires Linked(db) && start < |db|
    requires !EndsWithPeriod(db[start].data) && db[start].frequencyList != [] && maxLength >= 2
    ensures |Tweet(db, Some(start), maxLength, rand)| >= 2
  {
  }

  /** Without the successor condition the two-word claim fails: a lone word gives a one-word tweet. */
  lemma {:induction false} TweetOneWordWithoutSuccessor(rand: nat -> nat)
    ensures Tweet([MarkovNode("hello", [])], Some(0), 20, rand) == ["hello"]
  {
    var db := [MarkovNode("hello", [])];
    assert Walk(db, 0, 1, 20, rand) == [];
  }
}

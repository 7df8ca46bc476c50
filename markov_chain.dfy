/**
 * markov_chain.c: the chain object whose database the operations search
 * and grow in place. Each method is proved against its value-level
 * definition in ChainSpec.
 */
module Chain {
  import opened ChainTypes
  import opened ChainSpec

  class MarkovChain {
    /** The database: every node in insertion order; a node reference is its index. */
    var database: seq<MarkovNode>

    ghost predicate Valid()
      reads this
    {
      ValidDb(database)
    }

    /** An empty chain. */
    constructor ()
      ensures Valid() && database == []
    {
      database := [];
    }

    /**
     * get_node_from_database: scan the database from the first node and
     * return the first whose text equals `data`, NULL when none does.
     */
    method GetNodeFromDatabase(data: string) returns (r: Option<nat>)
      ensures r == Lookup(database, data)
      ensures r.Some? ==> r.value < |database| && database[r.value].data == data
      ensures r.None? <==> data !in Texts(database)
    {
      LookupSpec(database, data);
      var current := 0;
      while current < |database|
        invariant current <= |database|
        invariant forall j :: 0 <= j < current ==> database[j].data != data
      {
        if database[current].data == data {
          assert Texts(database)[current] == data;
          return Some(current);
        }
        current := current + 1;
      }
      assert forall j :: 0 <= j < |database| ==> Texts(database)[j] != data;
      return None;
    }

    /**
     * add_to_database: the node holding `data` when there is one; otherwise a
     * new node with a copy of `data`, appended at the end. `allocOk` is the
     * allocator's answer for the node, the text copy and the list cell.
     */
    method AddToDatabase(data: string, allocOk: bool) returns (r: Option<nat>)
      requires Valid() && |data| > 0
      modifies this
      ensures Valid()
      ensures AddResult(database, r) == Added(old(database), data, allocOk)
      ensures data in Texts(old(database)) ==> database == old(database) && r == Lookup(database, data)
      ensures data !in Texts(old(database)) && allocOk ==>
                database == old(database) + [MarkovNode(data, [])] && r == Some(|database| - 1)
      ensures data !in Texts(old(database)) && !allocOk ==> database == old(database) && r == None
    {
      AddedEffect(database, data, allocOk);
      AddedValid(database, data, allocOk);
      var existing := GetNodeFromDatabase(data);
      if existing.Some? {
        return existing;
      }
      if !allocOk {
        return None;
      }
      database := database + [MarkovNode(data, [])];
      return Some(|database| - 1);
    }

    /**
     * add_node_to_frequency_list: record one transition from `first` to
     * `second`. The scan looks for an entry whose target is `second` itself;
     * only a new entry needs the allocator, whose answer is `allocOk`.
     */
    method AddNodeToFrequencyList(first: Option<nat>, second: Option<nat>, allocOk: bool) returns (code: int)
      requires Valid()
      requires first.Some? ==> first.value < |database|
      requires second.Some? ==> second.value < |database|
      modifies this
      ensures Valid()
      ensures RecordResult(database, code) == Recorded(old(database), first, second, allocOk)
    {
      if first.None? || second.None? {
        return 1;
      }
      var f, s := first.value, second.value;
      var list := database[f].frequencyList;
      EntryOfSpec(list, s);
      var size := 0;
      while size < |list|
        invariant size <= |list|
        invariant forall k :: 0 <= k < size ==> list[k].markovNode != s
      {
        if list[size].markovNode == s {
          assert EntryOf(list, s) == Some(size) by {
            assert forall k :: 0 <= k < size ==> list[k].markovNode != s;
          }
          RecordedValid(database, first, second, allocOk);
          database := database[f := database[f].(frequencyList := list[size := list[size].(frequency := list[size].frequency + 1)])];
          return 0;
        }
        size := size + 1;
      }
      RecordedValid(database, first, second, allocOk);
      if !allocOk {
        return 1;
      }
      database := database[f := database[f].(frequencyList := list + [NodeFrequency(s, 1)])];
      return 0;
    }

    /**
     * get_first_random_node: count the nodes, then draw indices
     * `rand() % count` from `draws` until one lands on a word not ending in
     * '.'. The count covers every node, terminal or not.
     */
    method GetFirstRandomNode(draws: seq<nat>) returns (r: Option<nat>)
      ensures r == FirstRandom(database, draws)
    {
      if |database| == 0 {
        return None;
      }
      var current := 0;
      var nonTerminalWords := 0;
      while current < |database|
        invariant current <= |database| && nonTerminalWords == current
      {
        nonTerminalWords := nonTerminalWords + 1;
        current := current + 1;
      }
      var attempt := 0;
      while attempt < |draws|
        invariant attempt <= |draws|
        invariant FirstRandom(database, draws[attempt..]) == FirstRandom(database, draws)
      {
        var randomIndex := GetRandomNumber(draws[attempt], nonTerminalWords);
        if !EndsWithPeriod(database[randomIndex].data) {
          return Some(randomIndex);
        }
        assert draws[attempt..][1..] == draws[attempt + 1..];
        attempt := attempt + 1;
      }
      return None;
    }

    /**
     * get_next_random_node: NULL for a NULL node or an empty list; otherwise
     * sum the frequencies, draw `rand() % total`, and walk the list
     * accumulating frequencies until the running sum exceeds the draw.
     */
    method GetNextRandomNode(cur: Option<nat>, randValue: nat) returns (r: Option<nat>)
      requires Valid() && (cur.Some? ==> cur.value < |database|)
      ensures cur.None? ==> r.None?
      ensures cur.Some? ==> r == NextNode(database[cur.value].frequencyList, randValue)
    {
      if cur.None? || database[cur.value].frequencyList == [] {
        return None;
      }
      var list := database[cur.value].frequencyList;
      var totalFrequency := 0;
      var i := 0;
      while i < |list|
        invariant i <= |list| && totalFrequency == Sum(list[..i])
      {
        SumSnoc(list, i);
        totalFrequency := totalFrequency + list[i].frequency;
        i := i + 1;
      }
      assert list[..|list|] == list;
      var randomNum := GetRandomNumber(randValue, totalFrequency);
      var currentSum := 0;
      i := 0;
      while i < |list|
        invariant i <= |list| && currentSum == Sum(list[..i]) && currentSum <= randomNum
      {
        SumSnoc(list, i);
        currentSum := currentSum + list[i].frequency;
        if randomNum < currentSum {
          PickUnique(list, randomNum, i);
          return Some(list[i].markovNode);
        }
        i := i + 1;
      }
      assert false;
      return None;
    }

    /**
     * generate_tweet: the start node's text, then successors drawn with
     * get_next_random_node while fewer than `maxLength` words are out and
     * the last word does not end in '.'. The k-th call of
     * get_next_random_node uses `rand(k)`. The words are returned instead of
     * printed.
     */
    method GenerateTweet(start: Option<nat>, maxLength: int, rand: nat -> nat) returns (words: seq<string>)
      requires Valid() && (start.Some? ==> start.value < |database|)
      ensures words == Tweet(database, start, maxLength, rand)
    {
      if start.None? || maxLength <= 0 {
        return [];
      }
      var current: nat := start.value;
      words := [database[current].data];
      var wordCount: nat := 1;
      ghost var path: seq<nat> := [current];
      while wordCount < maxLength
        invariant current < |database| && wordCount >= 1 && |path| == wordCount
        invariant forall j :: 0 <= j < |path| ==> path[j] < |database|
        invariant words == TextsOf(database, path)
        invariant Path(database, start, maxLength, rand) == path + Walk(database, current, wordCount, maxLength, rand)
        decreases maxLength - wordCount
      {
        if EndsWithPeriod(database[current].data) {
          break;
        }
        var next := GetNextRandomNode(Some(current), rand(wordCount - 1));
        if next.None? {
          break;
        }
        WalkStep(database, current, wordCount, maxLength, rand, path);
        TextsOfSnoc(database, path, next.value);
        words := words + [database[next.value].data];
        wordCount := wordCount + 1;
        path := path + [next.value];
        current := next.value;
      }
    }
  }

  /** Extending a path by one node extends its texts by that node's text. */
  lemma {:induction false} TextsOfSnoc(db: seq<MarkovNode>, path: seq<nat>, n: nat)
    requires n < |db| && forall j :: 0 <= j < |path| ==> path[j] < |db|
    ensures TextsOf(db, path + [n]) == TextsOf(db, path) + [db[n].data]
  {
  }
}

/**
 * fill_database of tweets_generator.c, over a sequence of already split,
 * non-empty tokens. Reading lines and splitting them is not part of this
 * model; the token sequence is what strtok would hand out, in order.
 */
module TweetsGenerator {
  import opened ChainTypes
  import opened ChainSpec
  import opened Chain

  /** The ingestion state: the database, `prev_node`, and whether a call has failed. */
  datatype IngestState = IngestState(db: seq<MarkovNode>, prev: Option<nat>, failed: bool)

  /** `prev_node`, when set, is a node of the database. */
  predicate PrevInRange(st: IngestState) {
    st.prev.Some? ==> st.prev.value < |st.db|
  }

  /**
   * How many of `available` tokens the loop consumes: all of them when
   * `wordsToRead` is 0; `wordsToRead` of them, or all when fewer are
   * available, when it is positive; none when it is negative, since the
   * counter starts at 0.
   */
  function WordsToConsume(available: nat, wordsToRead: int): (n: nat)
    ensures n <= available
    ensures wordsToRead == 0 ==> n == available
    ensures wordsToRead != 0 ==> n <= wordsToRead || n == 0
    ensures wordsToRead > 0 ==> n == (if wordsToRead < available then wordsToRead else available)
    ensures wordsToRead < 0 ==> n == 0
  {
    if wordsToRead == 0 then available
    else if wordsToRead < 0 then 0
    else if wordsToRead < available then wordsToRead
    else available
  }

  /**
   * One pass of the inner loop: get or create the token's node, record the
   * transition from `prev_node` when it is set, and set `prev_node` to the
   * new node unless its text ends in '.'. `nodeOk` and `edgeOk` are the
   * allocator's answers for the two calls; a failed call sets `failed`.
   */
  function Step(db: seq<MarkovNode>, prev: Option<nat>, token: string, nodeOk: bool, edgeOk: bool): (r: IngestState)
    requires prev.Some? ==> prev.value < |db|
    ensures PrevInRange(r) && |db| <= |r.db|
  {
    var added := Added(db, token, nodeOk);
    if added.node.None? then IngestState(added.db, prev, true)
    else
      var n := added.node.value;
      var rec := if prev.Some? then Recorded(added.db, prev, added.node, edgeOk) else RecordResult(added.db, 0);
      if rec.code != 0 then IngestState(rec.db, prev, true)
      else IngestState(rec.db, if EndsWithPeriod(rec.db[n].data) then None else Some(n), false)
  }

  /**
   * The state once tokens `i` up to `n` have been fed from `st`, stopping at
   * the first failure. Token `j` gets the allocator answers `nodeAlloc(j)`
   * and `edgeAlloc(j)`.
   */
  function Run(st: IngestState, tokens: seq<string>, i: nat, n: nat, nodeAlloc: nat -> bool, edgeAlloc: nat -> bool): (r: IngestState)
    requires PrevInRange(st) && i <= n <= |tokens|
    ensures PrevInRange(r) && |st.db| <= |r.db|
    ensures st.failed ==> r == st
    decreases n - i
  {
    if i == n || st.failed then st
    else Run(Step(st.db, st.prev, tokens[i], nodeAlloc(i), edgeAlloc(i)), tokens, i + 1, n, nodeAlloc, edgeAlloc)
  }

  /** fill_database's result state: the first `n` tokens fed into `db0` with `prev_node` NULL. */
  function Ingest(db0: seq<MarkovNode>, tokens: seq<string>, n: nat, nodeAlloc: nat -> bool, edgeAlloc: nat -> bool): (r: IngestState)
    requires n <= |tokens|
    ensures PrevInRange(r) && |db0| <= |r.db|
  {
    Run(IngestState(db0, None, false), tokens, 0, n, nodeAlloc, edgeAlloc)
  }

  /**
   * One pass of fill_database's inner loop on the chain: add the token,
   * record the transition from `prev_node` when it is set, and compute the
   * next `prev_node`. `ok` is false when one of the two calls failed.
   */
  method FeedToken(chain: MarkovChain, token: string, prevNode: Option<nat>, nodeOk: bool, edgeOk: bool)
    returns (nextPrev: Option<nat>, ok: bool)
    requires chain.Valid() && |token| > 0
    requires prevNode.Some? ==> prevNode.value < |chain.database|
    modifies chain
    ensures chain.Valid()
    ensures ok ==> IngestState(chain.database, nextPrev, false) == Step(old(chain.database), prevNode, token, nodeOk, edgeOk)
    ensures !ok ==> Step(old(chain.database), prevNode, token, nodeOk, edgeOk).failed
    ensures !ok ==> chain.database == Step(old(chain.database), prevNode, token, nodeOk, edgeOk).db
  {
    var newNode := chain.AddToDatabase(token, nodeOk);
    if newNode.None? {
      return prevNode, false;
    }
    if prevNode.Some? {
      var code := chain.AddNodeToFrequencyList(prevNode, newNode, edgeOk);
      if code != 0 {
        return prevNode, false;
      }
    }
    if EndsWithPeriod(chain.database[newNode.value].data) {
      nextPrev := None;
    } else {
      nextPrev := newNode;
    }
    ok := true;
  }

  /**
   * fill_database: feed the tokens, at most `wordsToRead` of them unless it
   * is 0, into the chain. Returns 1 as soon as add_to_database or
   * add_node_to_frequency_list fails, 0 otherwise.
   */
  method FillDatabase(tokens: seq<string>, wordsToRead: int, chain: MarkovChain, nodeAlloc: nat -> bool, edgeAlloc: nat -> bool)
    returns (status: int)
    requires chain.Valid()
    requires forall j :: 0 <= j < |tokens| ==> |tokens[j]| > 0
    modifies chain
    ensures chain.Valid()
    ensures var st := Ingest(old(chain.database), tokens, WordsToConsume(|tokens|, wordsToRead), nodeAlloc, edgeAlloc);
      chain.database == st.db && status == (if st.failed then 1 else 0)
  {
    ghost var n := WordsToConsume(|tokens|, wordsToRead);
    ghost var final := Ingest(chain.database, tokens, n, nodeAlloc, edgeAlloc);
    var wordCounter: nat := 0;
    var prevNode: Option<nat> := None;
    while wordCounter < |tokens|
      invariant wordCounter <= n
      invariant chain.Valid() && (prevNode.Some? ==> prevNode.value < |chain.database|)
      invariant Run(IngestState(chain.database, prevNode, false), tokens, wordCounter, n, nodeAlloc, edgeAlloc) == final
    {
      if wordsToRead != 0 && wordCounter >= wordsToRead {
        return 0;
      }
      var ok;
      prevNode, ok := FeedToken(chain, tokens[wordCounter], prevNode, nodeAlloc(wordCounter), edgeAlloc(wordCounter));
      if !ok {
        return 1;
      }
      wordCounter := wordCounter + 1;
    }
    return 0;
  }
}

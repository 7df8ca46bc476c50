# Markov-chain tweet generator, modelled in Dafny

This project models the core of a small C program that learns a Markov
chain of words from a text and generates random "tweets" from it. The
model covers:

- the **node store**: a database of distinct words kept in insertion order,
  with get-or-create by string equality;
- the **transition table**: each word's frequency list of (successor, count)
  entries;
- the two **samplers**:
  - uniform start selection that rejects words ending in `.`;
  - inverse-CDF selection of a successor, weighted by count;
- the **generator**: a bounded random walk;
- the **ingestion loop** `fill_database`, which feeds consecutive token pairs
  into the table.

The model is laid out as an arena. The database is a `seq<MarkovNode>`
held by the class `Chain.MarkovChain`. A node reference, whether a
`MarkovNode*` or the list `Node*` around it, is the node's index in that
sequence, and NULL is `None`. An empty `frequencyList` stands for the NULL
list a node starts with.

Nothing here is random or allocating:

- The C library `rand()` values are inputs:
  - the start selection consumes a finite sequence of draws;
  - `generate_tweet` receives a stream `rand: nat -> nat`, where call k of
    `get_next_random_node` uses `rand(k)`.
- Every call that can fail to allocate takes the allocator's answer as a
  `bool`. The ingestion loop takes one answer per token for each of its two
  calls.

Modules:

- `ChainTypes` (chain_types.dfy): the types of markov_chain.h, plus the
  predicates the chain keeps:
  - distinct texts;
  - well-formed lists, meaning targets in range, counts at least 1 and no
    duplicate target;
  - no successor of a word ending in `.`.
- `ChainSpec` (chain_spec.dfy): value-level definitions of the operations of
  markov_chain.c (`Lookup`, `Added`, `Recorded`, `Pick`, `NextNode`,
  `FirstRandom`, `Walk`, `Tweet`) and the lemmas about them.
- `Chain` (markov_chain.dfy): the class `MarkovChain`. Each C function is a
  method with the C loops. Each method is proved equal to its `ChainSpec`
  definition and keeps `Valid()`.
- `TweetsGenerator` (tweets_generator.dfy): `fill_database` as a method over
  a token sequence, proved equal to the state-machine function `Ingest`,
  which is `Run` over repeated `Step`s.
- `IngestProperties` (ingest_properties.dfy): what ingestion builds.
  - the chain stays valid;
  - failures come only from refused allocations;
  - from an empty chain, the texts are the distinct tokens in order of first
    occurrence;
  - every frequency a -> b equals the number of adjacent token pairs (a, b)
    with a not ending in `.`.

Where the code and its header comments in markov_chain.h disagree, the model
follows the code:

- The header says add_node_to_frequency_list returns 1 "in case of
  allocation failure" (markov_chain.h:71). The code also returns 1, with no
  change, when either node is NULL (markov_chain.c:97-100). `Recorded` and
  `RecordedEffect` give both cases.
- The header promises a tweet of "at least two words" (markov_chain.h:100).
  The code guarantees two words only under a condition, which
  `TweetTwoWords` proves. `TweetOneWordWithoutSuccessor` shows a one-word
  tweet.

One point departs from the code. get_first_random_node retries without
bound until a draw lands on a word not ending in `.` (markov_chain.c:167-178),
so on a database where every word ends in `.` it never returns. The model
consumes a finite sequence of draws and returns `None` when they run out.
For an all-terminal database it returns `None` for every draw sequence
(`AllTerminalNoStart`). "## Left out" records this.

## Model

| member | source | states |
|---|---|---|
| ChainSpec.GetRandomNumber | markov_chain.c:8-11 | The draw reduced into [0, max_number); a draw already in range is kept as is. |
| ChainSpec.Lookup | markov_chain.c:19-40 | get_node_from_database on a database value: a node it returns is a node of the database holding the queried text. |
| ChainSpec.LookupSpec | markov_chain.c:19-40 | The lookup is a first-match scan: a found node has the text and no earlier node has it; nothing is found exactly when no node has the text. |
| ChainSpec.LookupOwnText | markov_chain.c:19-40 | In a database with distinct texts, looking up a node's own text finds that node. |
| Chain.MarkovChain.GetNodeFromDatabase | markov_chain.c:19-40 | The scan loop returns the first node whose text equals the query, and NULL exactly when the query is not among the texts. |
| ChainSpec.Added | markov_chain.c:48-87 | add_to_database on a database value: a node it returns is a node of the new database holding the text, and the database never shrinks. |
| ChainSpec.AddedEffect | markov_chain.c:48-87 | A known text returns its node and leaves the database alone. A new text appends exactly one node at the end, with a copy of the text and no transitions, keeps every earlier node and returns the last node. A refused allocation returns NULL and changes nothing. |
| ChainSpec.AddedTexts | markov_chain.c:50-86 | The texts after add_to_database: unchanged when the text was known or the allocation was refused, otherwise the old texts followed by the new one. |
| ChainSpec.AddedPrefix | markov_chain.c:78-86 | add_to_database never changes a node that was already in the database. |
| ChainSpec.AddedValid | markov_chain.c:65-86 | add_to_database keeps the database valid (texts pairwise distinct, lists well-formed) and adds no transition out of a word ending in '.'. |
| Chain.MarkovChain.AddToDatabase | markov_chain.c:48-87 | The method's new database and result are exactly those of `Added`, in the known-text, new-text and refused-allocation cases, and the chain stays valid. |
| ChainSpec.EntryOf | markov_chain.c:113-122 | The frequency-list scan on a list value: an entry it returns is in the list and has the node as its target. |
| ChainSpec.EntryOfSpec | markov_chain.c:113-122 | The scan for an entry compares targets by node identity: it finds the first entry whose target is the node, and none exactly when no entry has it. |
| ChainSpec.Recorded | markov_chain.c:95-138 | add_node_to_frequency_list on a database value: the number of nodes is unchanged and the status is 0 or 1. |
| ChainSpec.RecordedEffect | markov_chain.c:95-138 | Returns 1 with nothing changed exactly on a NULL argument, or when a new entry is needed and the allocation is refused. Otherwise returns 0. On 0, no text and no other node changes. An existing entry gains exactly 1, with the list length and every other entry unchanged. A new target is appended after all entries with frequency 1. |
| ChainSpec.RecordedTexts | markov_chain.c:113-135 | Recording a transition changes no text. |
| ChainSpec.RecordedFrequencies | markov_chain.c:113-135 | A successful call raises the count of first -> second by exactly 1 and keeps every other transition's count, so the total frequency of `first` rises by exactly 1. |
| ChainSpec.RecordedValid | markov_chain.c:113-135 | Recording keeps the database valid: no duplicate targets, every frequency at least 1, every target a node. It adds no successor to a word ending in '.' unless `first` is one. |
| Chain.MarkovChain.AddNodeToFrequencyList | markov_chain.c:95-138 | The scan-and-bump or append loop leaves exactly the database and status of `Recorded`, and keeps the chain valid. |
| ChainTypes.FrequencyOfEntry | markov_chain.h:32-40 | In a list without duplicate targets, an entry's `frequency` field is the count of transitions to its target. |
| ChainTypes.FrequencyBump | markov_chain.c:116-119 | Incrementing an entry raises the count of its target, and the list total, by exactly 1, and no other count. |
| ChainTypes.FrequencyAppend | markov_chain.c:132-135 | Appending an entry adds its frequency to its own target's count and to the list total. |
| ChainSpec.Pick | markov_chain.c:204-216 | The sampler's second loop on a list value: for a draw below the total frequency it stops at an index of the list. |
| ChainSpec.PickBracket | markov_chain.c:204-214 | The picked index is where the running sum first exceeds the draw: the prefix sum before it is at most the draw, and the prefix sum through it is above the draw. |
| ChainSpec.PickUnique | markov_chain.c:204-216 | Any index whose prefix sums bracket the draw is the picked one, and such a draw is below the total. So the second loop returns at the first running sum above the draw and never falls through. |
| ChainSpec.NextNode | markov_chain.c:188-217 | get_next_random_node on a list: NULL exactly for an empty list; otherwise a target that is listed. |
| Chain.MarkovChain.GetNextRandomNode | markov_chain.c:188-217 | NULL for a NULL node. Otherwise the two accumulation loops return exactly `NextNode`: the target picked by the draw `rand() % total_frequency`. |
| ChainSpec.FirstRandom | markov_chain.c:145-181 | The result is a node not ending in '.'. It is selected by the first draw `draws[k] % size` that lands on such a word, every earlier draw having landed on a word ending in '.'. It is None exactly for an empty database or when every draw lands on such a word. |
| ChainSpec.AllTerminalNoStart | markov_chain.c:167-178 | When every word ends in '.', no draw sequence yields a start node. |
| ChainSpec.NonTerminalDrawStarts | markov_chain.c:167-178 | A draw that lands on a word not ending in '.' always yields a start node. |
| Chain.MarkovChain.GetFirstRandomNode | markov_chain.c:145-181 | The counting loop and the retry loop return exactly `FirstRandom` over the draws. |
| ChainSpec.Walk | markov_chain.c:235-251 | The nodes generate_tweet visits after the first when the database's targets are all nodes: every visited node is a node of the database. |
| ChainSpec.Path | markov_chain.c:226-251 | The whole node path of generate_tweet, the start node then the walk: every node on it is a node of the database. |
| ChainSpec.WalkStep | markov_chain.c:242-250 | One loop pass: the successor drawn is a node, and the rest of the walk continues from it with one more word. |
| ChainSpec.WalkLength | markov_chain.c:235-251 | The walk never emits more words than are left below `max_length`. |
| ChainSpec.WalkSteps | markov_chain.c:235-251 | In the walk each word is followed only by a target listed in its own frequency list, and never after a word ending in '.'. |
| ChainSpec.WalkEnd | markov_chain.c:235-246 | The walk stops only on the length cap, on a word ending in '.', or on a node with an empty list. |
| ChainSpec.Tweet | markov_chain.c:224-254 | The words generate_tweet prints: none for a NULL start or `max_length <= 0`, otherwise at least one (the first is the start's text, by `TweetLength`). |
| ChainSpec.TweetLength | markov_chain.c:226-249 | No words for a NULL start or `max_length <= 0`. Otherwise the first word is the start's text and there are between 1 and `max_length` words. |
| ChainSpec.TweetSteps | markov_chain.c:235-251 | Consecutive tweet words follow recorded transitions. No word follows a word ending in '.'. A tweet shorter than the cap ends on a word ending in '.' or on a node with no successors. |
| ChainSpec.TweetTwoWords | markov_chain.h:98-105 | The header's "at least two words" holds for a start not ending in '.', with a non-empty list and `max_length >= 2`. |
| ChainSpec.TweetOneWordWithoutSuccessor | markov_chain.h:98-105 | Without a successor the tweet has a single word, so the unconditional two-word claim does not hold. |
| Chain.MarkovChain.GenerateTweet | markov_chain.c:224-254 | The words the loop emits are exactly `Tweet`: the texts of the start node and of the walk from it. |
| TweetsGenerator.WordsToConsume | tweets_generator.c:25-28 | The token cap: every token when `words_to_read` is 0; for a positive `words_to_read`, that many tokens or every token when fewer are available; none for a negative one, since the counter starts at 0 and the cap check comes first. |
| TweetsGenerator.Step | tweets_generator.c:30-52 | One token on state values: `prev_node` afterwards is NULL or a node of the database, and the database never shrinks. |
| TweetsGenerator.Run | tweets_generator.c:23-56 | The inner loop over a range of tokens: `prev_node` stays NULL or a node, the database never shrinks, and once a call has failed nothing changes. |
| TweetsGenerator.Ingest | tweets_generator.c:13-59 | fill_database on values, starting from `prev_node` NULL: `prev_node` stays NULL or a node, and the database never shrinks. |
| TweetsGenerator.FeedToken | tweets_generator.c:30-52 | One pass of the inner loop on the chain: on success the new database and `prev_node` are exactly those of `Step`; on failure `Step` fails too and the database is the one it leaves. |
| TweetsGenerator.FillDatabase | tweets_generator.c:13-59 | The token loop leaves exactly the database of `Ingest` over the capped tokens. It returns 1 exactly when `Ingest` failed and 0 otherwise, and keeps the chain valid. |
| IngestProperties.StepValid | tweets_generator.c:30-52 | One token keeps the database valid. Provided no word ending in '.' had a successor and `prev_node` does not end in '.', both stay true. |
| IngestProperties.StepFailure | tweets_generator.c:30-41 | A token fails only when one of its two allocations was refused. |
| IngestProperties.StepTextsEq | tweets_generator.c:30-42 | After a successful token, the texts gain it at the end exactly when it was new. |
| IngestProperties.StepPrev | tweets_generator.c:44-52 | After a successful token, its text is found, and `prev_node` is its node unless it ends in '.', in which case it is NULL. |
| IngestProperties.StepLookup | tweets_generator.c:30-42 | After a successful token, looking up its text finds the node add_to_database returned. |
| IngestProperties.StepFrequencies | tweets_generator.c:36-42 | A successful token raises the count of exactly one transition, `prev_node` -> its node, by 1, and keeps every other count; a new node has no transitions. |
| IngestProperties.RunValid | tweets_generator.c:23-56 | Any run of tokens keeps the chain valid. Provided no word ending in '.' had a successor and `prev_node` did not end in '.', both stay true. |
| IngestProperties.IngestValid | tweets_generator.c:17-56 | From a valid chain where no word ending in '.' has a successor, fill_database leaves a valid chain where still none has one, because `prev_node` starts NULL and is reset after such a word. |
| IngestProperties.RunFailure | tweets_generator.c:30-41 | A run fails only if some consumed token had an allocation refused; with every allocation granted fill_database returns 0. |
| IngestProperties.RunTexts | tweets_generator.c:23-56 | After a successful run the texts are the earlier texts followed by the consumed tokens that were not yet known, in order of first occurrence. |
| IngestProperties.IngestTexts | tweets_generator.c:30-34 | From an empty chain, a successful fill_database leaves exactly the distinct consumed tokens as texts, in order of first occurrence. Every consumed token is there, nothing else is, and nothing occurs twice. |
| IngestProperties.AddNewMembers | tweets_generator.c:30-34 | A word is among the first-occurrence texts exactly when it was known before or is among the tokens. |
| IngestProperties.AddNewNoDuplicates | tweets_generator.c:30-34 | The first-occurrence texts contain no duplicate. |
| IngestProperties.StepCounts | tweets_generator.c:36-52 | One successful token keeps every count equal to the number of adjacent pairs among the words read, and `prev_node` equal to the last word's node (NULL after '.'). |
| IngestProperties.PairNew | tweets_generator.c:36-52 | The transition a token records, `prev_node` -> its node, is a -> b exactly when the last word read is a's text and does not end in '.', and the token is b's text. |
| IngestProperties.PairOld | tweets_generator.c:36-42 | Before a token, the count of a -> b equals the number of such pairs among the words read. This count is 0 when a is the new node, and both are 0 when b is. |
| IngestProperties.RunCounts | tweets_generator.c:23-56 | Over a successful run, every count stays equal to the number of adjacent pairs among the consumed tokens. |
| IngestProperties.IngestCounts | tweets_generator.c:36-54 | From an empty chain, the count of a -> b is the number of positions where token a is immediately followed by token b, with a not ending in '.'. So a transition comes only from the token just before, and nothing leads into the first token. |
| ChainTypes.SumSnoc | markov_chain.c:195-201 | The total frequency accumulates entry by entry, as the sampler's loops sum it. |

## Left out

- `main`, argument parsing, file opening, `srand` and "Tweet %d:" printing
  (tweets_generator.c:67-138) are input/output glue. The 20-word cap is a
  caller's argument.
- `fgets`, `strtok` and the 1000-character line buffer of fill_database:
  the method takes the tokens `strtok` would hand out, in order, as a
  `seq<string>`. Words split across buffer boundaries are not modelled.
- `free_database` (markov_chain.c:260-293): manual memory release has no
  counterpart under a managed heap.
- The `printf` output of generate_tweet: the words are returned as a
  sequence, without spacing or newlines.
- `linked_list.h` and its `add` are not part of this model. Appending to the
  database is assumed to put the node at the tail.
- Allocation failure messages are presentation and are not modelled.
- Chain.MarkovChain.AddToDatabase: the three allocations (node, text copy,
  list cell) share one `allocOk` answer, because each failure has the same
  outcome: NULL and an unchanged database.
- Chain.MarkovChain.AddNodeToFrequencyList: when `calloc` succeeds and the
  following `realloc` fails, the C code leaves a non-NULL list holding only
  the sentinel. The model leaves the database unchanged. Both stand for an
  empty list, and fill_database aborts either way.
- Chain.MarkovChain.GetFirstRandomNode: the unbounded retry is replaced by a
  finite sequence of draws, with `None` when they run out. The loop as
  written does not terminate when every word ends in '.'.
- Chain.MarkovChain.GetNextRandomNode: a non-NULL list holding only the
  sentinel would compute `rand() % 0`. The model treats it as the NULL
  list, which only a failed allocation can produce.
- TweetsGenerator.FillDatabase: tokens are required non-empty. The C code
  reads `data[strlen(data) - 1]`, which is undefined for an empty string,
  and `strtok` never produces one.
- Frequencies and the word counter are unbounded naturals. C `int`
  overflow of `frequency` and `word_counter` is not modelled.
- `rand()` modulo bias is not a property of the model: a draw is any
  natural number, and the result is that draw reduced modulo n.
- NULL `markov_chain` or `database` pointers are not modelled. The chain
  object always exists.
- ChainSpec.TweetTwoWords: the header's unconditional "at least two words"
  is proved only in the conditional form the code guarantees.
- The statistical claim that sampled successors converge to
  count / total is not modelled. The model states the deterministic
  prefix-sum rule for a given draw instead.

/**
 * What fill_database builds: the chain stays valid, a failure is always
 * caused by a refused allocation, the nodes are the distinct tokens in
 * first-occurrence order, and every frequency counts adjacent token pairs.
 */
module IngestProperties {
  import opened ChainTypes
  import opened ChainSpec
  import opened TweetsGenerator

  /** The previous word, when there is one, does not end in '.'. */
  predicate PrevNonTerminal(st: IngestState)
    requires PrevInRange(st)
  {
    st.prev.Some? ==> !EndsWithPeriod(st.db[st.prev.value].data)
  }

  // ---------------------------------------------------------------------
  // One token

  /** One token keeps the database valid and adds no transition out of a word ending in '.'. */
  lemma {:induction false} StepValid(db: seq<MarkovNode>, prev: Option<nat>, token: string, nodeOk: bool, edgeOk: bool)
    requires ValidDb(db) && |token| > 0 && (prev.Some? ==> prev.value < |db|)
    ensures ValidDb(Step(db, prev, token, nodeOk, edgeOk).db)
    ensures NoEdgesFromTerminal(db) && PrevNonTerminal(IngestState(db, prev, false)) ==>
              NoEdgesFromTerminal(Step(db, prev, token, nodeOk, edgeOk).db) &&
              PrevNonTerminal(Step(db, prev, token, nodeOk, edgeOk))
  {
    var added := Added(db, token, nodeOk);
    AddedValid(db, token, nodeOk);
    if added.node.Some? && prev.Some? {
      AddedPrefix(db, token, nodeOk);
      RecordedValid(added.db, prev, added.node, edgeOk);
    }
  }

  /** A token fails only when the allocator refused one of its two requests. */
  lemma {:induction false} StepFailure(db: seq<MarkovNode>, prev: Option<nat>, token: string, nodeOk: bool, edgeOk: bool)
    requires prev.Some? ==> prev.value < |db|
    ensures Step(db, prev, token, nodeOk, edgeOk).failed ==> !nodeOk || !edgeOk
  {
    var added := Added(db, token, nodeOk);
    AddedEffect(db, token, nodeOk);
    if added.node.Some? && prev.Some? {
      var list := added.db[prev.value].frequencyList;
      assert Recorded(added.db, prev, added.node, edgeOk).code != 0 ==> EntryOf(list, added.node.value).None? && !edgeOk;
    }
  }

  /** A successful token adds its text at the end exactly when it was new, and changes no other text. */
  lemma {:induction false} StepTextsEq(db: seq<MarkovNode>, prev: Option<nat>, token: string, nodeOk: bool, edgeOk: bool)
    requires prev.Some? ==> prev.value < |db|
    requires !Step(db, prev, token, nodeOk, edgeOk).failed
    ensures Texts(Step(db, prev, token, nodeOk, edgeOk).db) == if token in Texts(db) then Texts(db) else Texts(db) + [token]
  {
    var added := Added(db, token, nodeOk);
    AddedTexts(db, token, nodeOk);
    AddedEffect(db, token, nodeOk);
    LookupSpec(db, token);
    assert added.node.Some?;
    assert token !in Texts(db) ==> nodeOk by {
      if token !in Texts(db) {
        assert forall j :: 0 <= j < |db| ==> db[j].data == Texts(db)[j];
      }
    }
    var rec := if prev.Some? then Recorded(added.db, prev, added.node, edgeOk) else RecordResult(added.db, 0);
    if prev.Some? {
      RecordedTexts(added.db, prev, added.node, edgeOk);
    }
    assert Step(db, prev, token, nodeOk, edgeOk).db == rec.db;
    assert Texts(rec.db) == Texts(added.db);
  }

  /**
   * A successful token: its text is found afterwards, and `prev_node`
   * becomes its node unless the text ends in '.'.
   */
  lemma {:induction false} StepPrev(db: seq<MarkovNode>, prev: Option<nat>, token: string, nodeOk: bool, edgeOk: bool)
    requires ValidDb(db) && |token| > 0 && (prev.Some? ==> prev.value < |db|)
    requires !Step(db, prev, token, nodeOk, edgeOk).failed
    ensures var r := Step(db, prev, token, nodeOk, edgeOk);
      && Lookup(r.db, token).Some?
      && r.prev == (if EndsWithPeriod(token) then None else Lookup(r.db, token))
  {
    StepLookup(db, prev, token, nodeOk, edgeOk);
  }

  /** After a successful token, looking its text up finds the node add_to_database returned. */
  lemma {:induction false} StepLookup(db: seq<MarkovNode>, prev: Option<nat>, token: string, nodeOk: bool, edgeOk: bool)
    requires ValidDb(db) && |token| > 0 && (prev.Some? ==> prev.value < |db|)
    requires !Step(db, prev, token, nodeOk, edgeOk).failed
    ensures Lookup(Step(db, prev, token, nodeOk, edgeOk).db, token) == Added(db, token, nodeOk).node
  {
    var added := Added(db, token, nodeOk);
    var r := Step(db, prev, token, nodeOk, edgeOk);
    if prev.Some? {
      RecordedTexts(added.db, prev, added.node, edgeOk);
    }
    assert Texts(r.db)[added.node.value] == token;
    StepValid(db, prev, token, nodeOk, edgeOk);
    LookupOwnText(r.db, added.node.value);
  }

  /**
   * A successful token raises the frequency of exactly one transition by 1,
   * from `prev_node` to the token's node, and keeps every other one; a new
   * node starts with no transitions.
   */
  lemma {:induction false} StepFrequencies(db: seq<MarkovNode>, prev: Option<nat>, token: string, nodeOk: bool, edgeOk: bool)
    requires prev.Some? ==> prev.value < |db|
    requires !Step(db, prev, token, nodeOk, edgeOk).failed
    ensures var r := Step(db, prev, token, nodeOk, edgeOk);
      var m := Added(db, token, nodeOk).node.value;
      forall a: nat, t: nat :: a < |r.db| ==>
           Frequency(r.db[a].frequencyList, t)
             == (if a < |db| then Frequency(db[a].frequencyList, t) else 0)
                + (if prev == Some(a) && t == m then 1 else 0)
  {
    var added := Added(db, token, nodeOk);
    var r := Step(db, prev, token, nodeOk, edgeOk);
    var m := added.node.value;
    AddedEffect(db, token, nodeOk);
    var rec := if prev.Some? then Recorded(added.db, prev, added.node, edgeOk) else RecordResult(added.db, 0);
    assert r.db == rec.db;
    if prev.Some? {
      RecordedFrequencies(added.db, prev, added.node, edgeOk);
    }
    forall a: nat, t: nat | a < |r.db|
      ensures Frequency(r.db[a].frequencyList, t)
                == (if a < |db| then Frequency(db[a].frequencyList, t) else 0)
                   + (if prev == Some(a) && t == m then 1 else 0)
    {
      if prev.Some? {
        assert Frequency(rec.db[a].frequencyList, t)
                 == Frequency(added.db[a].frequencyList, t) + (if prev == Some(a) && Some(t) == added.node then 1 else 0);
      }
      if a < |db| {
        assert added.db[a] == db[a];
      } else {
        assert added.db[a].frequencyList == [];
      }
    }
  }

  // ---------------------------------------------------------------------
  // A run of tokens

  /**
   * fill_database keeps the chain valid: distinct non-empty texts and
   * well-formed lists; and no word ending in '.' ever gets a successor,
   * because `prev_node` is cleared after such a word.
   */
  lemma {:induction false} RunValid(st: IngestState, tokens: seq<string>, i: nat, n: nat, nodeAlloc: nat -> bool, edgeAlloc: nat -> bool)
    requires PrevInRange(st) && i <= n <= |tokens| && ValidDb(st.db)
    requires forall j :: 0 <= j < |tokens| ==> |tokens[j]| > 0
    ensures ValidDb(Run(st, tokens, i, n, nodeAlloc, edgeAlloc).db)
    ensures NoEdgesFromTerminal(st.db) && PrevNonTerminal(st) ==>
              NoEdgesFromTerminal(Run(st, tokens, i, n, nodeAlloc, edgeAlloc).db) &&
              PrevNonTerminal(Run(st, tokens, i, n, nodeAlloc, edgeAlloc))
    decreases n - i
  {
    if i < n && !st.failed {
      StepValid(st.db, st.prev, tokens[i], nodeAlloc(i), edgeAlloc(i));
      RunValid(Step(st.db, st.prev, tokens[i], nodeAlloc(i), edgeAlloc(i)), tokens, i + 1, n, nodeAlloc, edgeAlloc);
    }
  }

  /**
   * From a valid chain in which no word ending in '.' has a successor,
   * fill_database leaves a valid chain in which still none has one.
   */
  lemma {:induction false} IngestValid(db0: seq<MarkovNode>, tokens: seq<string>, n: nat, nodeAlloc: nat -> bool, edgeAlloc: nat -> bool)
    requires n <= |tokens| && forall j :: 0 <= j < |tokens| ==> |tokens[j]| > 0
    requires ValidDb(db0) && NoEdgesFromTerminal(db0)
    ensures ValidDb(Ingest(db0, tokens, n, nodeAlloc, edgeAlloc).db)
    ensures NoEdgesFromTerminal(Ingest(db0, tokens, n, nodeAlloc, edgeAlloc).db)
  {
    RunValid(IngestState(db0, None, false), tokens, 0, n, nodeAlloc, edgeAlloc);
  }

  /**
   * fill_database returns 1 only when some token's allocation was refused;
   * when every allocation succeeds it returns 0 after all `n` tokens.
   */
  lemma {:induction false} RunFailure(st: IngestState, tokens: seq<string>, i: nat, n: nat, nodeAlloc: nat -> bool, edgeAlloc: nat -> bool)
    requires PrevInRange(st) && i <= n <= |tokens| && !st.failed
    ensures Run(st, tokens, i, n, nodeAlloc, edgeAlloc).failed ==>
              exists j :: i <= j < n && (!nodeAlloc(j) || !edgeAlloc(j))
    decreases n - i
  {
    if i < n {
      var next := Step(st.db, st.prev, tokens[i], nodeAlloc(i), edgeAlloc(i));
      StepFailure(st.db, st.prev, tokens[i], nodeAlloc(i), edgeAlloc(i));
      if !next.failed {
        RunFailure(next, tokens, i + 1, n, nodeAlloc, edgeAlloc);
      }
    }
  }

  /** The texts `seen`, then each word of `ws` not yet among them, in order of first occurrence. */
  function AddNew(seen: seq<string>, ws: seq<string>): (r: seq<string>)
    ensures |seen| <= |r| && r[..|seen|] == seen
    decreases |ws|
  {
    if ws == [] then seen
    else
      var next := if ws[0] in seen then seen else seen + [ws[0]];
      var r := AddNew(next, ws[1..]);
      assert r[..|seen|] == r[..|next|][..|seen|];
      r
  }

  /** A word is in `AddNew(seen, ws)` exactly when it is in `seen` or in `ws`. */
  lemma {:induction false} AddNewMembers(seen: seq<string>, ws: seq<string>, w: string)
    ensures w in AddNew(seen, ws) <==> w in seen || w in ws
    decreases |ws|
  {
    if ws != [] {
      var next := if ws[0] in seen then seen else seen + [ws[0]];
      AddNewMembers(next, ws[1..], w);
      assert ws == [ws[0]] + ws[1..];
    }
  }

  /** No word occurs twice in a sequence. */
  predicate NoDuplicates(ws: seq<string>) {
    forall i, j :: 0 <= i < j < |ws| ==> ws[i] != ws[j]
  }

  /** `AddNew` adds no duplicate. */
  lemma {:induction false} AddNewNoDuplicates(seen: seq<string>, ws: seq<string>)
    requires NoDuplicates(seen)
    ensures NoDuplicates(AddNew(seen, ws))
    decreases |ws|
  {
    if ws != [] {
      var next := if ws[0] in seen then seen else seen + [ws[0]];
      AddNewNoDuplicates(next, ws[1..]);
    }
  }

  /**
   * After a successful run, the texts are the earlier ones followed by the
   * consumed tokens that were not yet known, in order of first occurrence.
   */
  lemma {:induction false} RunTexts(st: IngestState, tokens: seq<string>, i: nat, n: nat, nodeAlloc: nat -> bool, edgeAlloc: nat -> bool)
    requires PrevInRange(st) && i <= n <= |tokens| && !st.failed
    requires !Run(st, tokens, i, n, nodeAlloc, edgeAlloc).failed
    ensures Texts(Run(st, tokens, i, n, nodeAlloc, edgeAlloc).db) == AddNew(Texts(st.db), tokens[i..n])
    decreases n - i
  {
    if i < n {
      var next := Step(st.db, st.prev, tokens[i], nodeAlloc(i), edgeAlloc(i));
      StepTextsEq(st.db, st.prev, tokens[i], nodeAlloc(i), edgeAlloc(i));
      RunTexts(next, tokens, i + 1, n, nodeAlloc, edgeAlloc);
      assert tokens[i..n][0] == tokens[i] && tokens[i..n][1..] == tokens[i + 1..n];
    }
  }

  /**
   * Starting from an empty chain, a successful fill_database leaves exactly
   * the distinct consumed tokens, in order of first occurrence, as the
   * texts: each consumed token is there, nothing else is, and none twice.
   */
  lemma {:induction false} IngestTexts(tokens: seq<string>, n: nat, nodeAlloc: nat -> bool, edgeAlloc: nat -> bool)
    requires n <= |tokens| && forall j :: 0 <= j < |tokens| ==> |tokens[j]| > 0
    requires !Ingest([], tokens, n, nodeAlloc, edgeAlloc).failed
    ensures var texts := Texts(Ingest([], tokens, n, nodeAlloc, edgeAlloc).db);
      && texts == AddNew([], tokens[..n])
      && NoDuplicates(texts)
      && forall w :: w in texts <==> w in tokens[..n]
  {
    var texts := Texts(Ingest([], tokens, n, nodeAlloc, edgeAlloc).db);
    RunTexts(IngestState([], None, false), tokens, 0, n, nodeAlloc, edgeAlloc);
    assert tokens[0..n] == tokens[..n];
    AddNewNoDuplicates([], tokens[..n]);
    forall w ensures w in texts <==> w in tokens[..n] {
      AddNewMembers([], tokens[..n], w);
    }
  }

  // ---------------------------------------------------------------------
  // Frequencies count adjacent pairs

  /**
   * How often `x` is immediately followed by `y` in `ws`, where a pair whose
   * first word ends in '.' does not count.
   */
  function PairCount(ws: seq<string>, x: string, y: string): nat
    decreases |ws|
  {
    if |ws| < 2 then 0
    else PairCount(ws[..|ws| - 1], x, y)
         + (if ws[|ws| - 2] == x && ws[|ws| - 1] == y && !EndsWithPeriod(x) then 1 else 0)
  }

  /** One more word adds one pair: the previous last word followed by it. */
  lemma {:induction false} PairCountSnoc(ws: seq<string>, t: string, x: string, y: string)
    ensures PairCount(ws + [t], x, y)
         == PairCount(ws, x, y) + (if |ws| > 0 && ws[|ws| - 1] == x && t == y && !EndsWithPeriod(x) then 1 else 0)
  {
    assert (ws + [t])[..|ws|] == ws;
  }

  /** A word that does not occur is in no pair. */
  lemma {:induction false} PairCountAbsent(ws: seq<string>, x: string, y: string)
    requires x !in ws || y !in ws
    ensures PairCount(ws, x, y) == 0
    decreases |ws|
  {
    if |ws| >= 2 {
      var front := ws[..|ws| - 1];
      assert forall w :: w in front ==> w in ws;
      PairCountAbsent(front, x, y);
    }
  }

  /** Every frequency of the database equals the number of times its pair occurs in `ws`. */
  predicate CountsPairs(db: seq<MarkovNode>, ws: seq<string>) {
    forall a, b :: 0 <= a < |db| && 0 <= b < |db| ==>
      Frequency(db[a].frequencyList, b) == PairCount(ws, db[a].data, db[b].data)
  }

  /**
   * The state has read the words `ws`: each of them is a text of the
   * database, and `prev_node` is the node of the last word unless there is
   * none or it ends in '.'.
   */
  predicate HasRead(st: IngestState, ws: seq<string>) {
    && (forall w :: w in ws ==> w in Texts(st.db))
    && st.prev == (if |ws| > 0 && !EndsWithPeriod(ws[|ws| - 1]) then Lookup(st.db, ws[|ws| - 1]) else None)
  }

  /** One successful token keeps the frequencies equal to the pair counts of the words read. */
  lemma {:induction false} StepCounts(st: IngestState, ws: seq<string>, token: string, nodeOk: bool, edgeOk: bool)
    requires PrevInRange(st) && ValidDb(st.db) && |token| > 0
    requires !Step(st.db, st.prev, token, nodeOk, edgeOk).failed
    requires CountsPairs(st.db, ws) && HasRead(st, ws)
    ensures ValidDb(Step(st.db, st.prev, token, nodeOk, edgeOk).db)
    ensures CountsPairs(Step(st.db, st.prev, token, nodeOk, edgeOk).db, ws + [token])
    ensures HasRead(Step(st.db, st.prev, token, nodeOk, edgeOk), ws + [token])
  {
    var r := Step(st.db, st.prev, token, nodeOk, edgeOk);
    StepFrequencies(st.db, st.prev, token, nodeOk, edgeOk);
    StepTextsEq(st.db, st.prev, token, nodeOk, edgeOk);
    StepPrev(st.db, st.prev, token, nodeOk, edgeOk);
    StepLookup(st.db, st.prev, token, nodeOk, edgeOk);
    StepValid(st.db, st.prev, token, nodeOk, edgeOk);
    CountsAfter(st, ws, token, r, Added(st.db, token, nodeOk).node.value);
    ReadAfter(st, ws, token, r);
  }

  /** StepCounts for token `i`, with the words read up to it as a prefix of the tokens. */
  lemma {:induction false} StepCountsAt(st: IngestState, tokens: seq<string>, i: nat, nodeOk: bool, edgeOk: bool)
    requires PrevInRange(st) && ValidDb(st.db) && i < |tokens| && |tokens[i]| > 0
    requires !Step(st.db, st.prev, tokens[i], nodeOk, edgeOk).failed
    requires CountsPairs(st.db, tokens[..i]) && HasRead(st, tokens[..i])
    ensures ValidDb(Step(st.db, st.prev, tokens[i], nodeOk, edgeOk).db)
    ensures CountsPairs(Step(st.db, st.prev, tokens[i], nodeOk, edgeOk).db, tokens[..i + 1])
    ensures HasRead(Step(st.db, st.prev, tokens[i], nodeOk, edgeOk), tokens[..i + 1])
  {
    StepCounts(st, tokens[..i], tokens[i], nodeOk, edgeOk);
    assert tokens[..i] + [tokens[i]] == tokens[..i + 1];
  }

  /** The pair counts after one token, from what the token did to the frequencies. */
  lemma {:induction false} CountsAfter(st: IngestState, ws: seq<string>, token: string, r: IngestState, m: nat)
    requires PrevInRange(st) && ValidDb(st.db) && ValidDb(r.db)
    requires CountsPairs(st.db, ws) && HasRead(st, ws)
    requires Texts(r.db) == (if token in Texts(st.db) then Texts(st.db) else Texts(st.db) + [token])
    requires Lookup(r.db, token) == Some(m)
    requires forall a: nat, t: nat :: a < |r.db| ==>
               Frequency(r.db[a].frequencyList, t)
                 == (if a < |st.db| then Frequency(st.db[a].frequencyList, t) else 0)
                    + (if st.prev == Some(a) && t == m then 1 else 0)
    ensures CountsPairs(r.db, ws + [token])
  {
    forall a, b | 0 <= a < |r.db| && 0 <= b < |r.db|
      ensures Frequency(r.db[a].frequencyList, b) == PairCount(ws + [token], r.db[a].data, r.db[b].data)
    {
      PairStep(st, ws, token, r, m, a, b);
    }
  }

  /** After one token every word read, the token included, is a text, and `prev_node` follows the token. */
  lemma {:induction false} ReadAfter(st: IngestState, ws: seq<string>, token: string, r: IngestState)
    requires HasRead(st, ws)
    requires Texts(r.db) == (if token in Texts(st.db) then Texts(st.db) else Texts(st.db) + [token])
    requires Lookup(r.db, token).Some?
    requires r.prev == (if EndsWithPeriod(token) then None else Lookup(r.db, token))
    ensures HasRead(r, ws + [token])
  {
    var m := Lookup(r.db, token).value;
    forall w | w in ws + [token] ensures w in Texts(r.db) {
      if w in ws {
        var k :| 0 <= k < |Texts(st.db)| && Texts(st.db)[k] == w;
        assert Texts(r.db)[k] == w;
      } else {
        assert Texts(r.db)[m] == w;
      }
    }
  }

  /** The pair a -> b in one successful token: the old count plus the new pair, if it is this one. */
  lemma {:induction false} PairStep(st: IngestState, ws: seq<string>, token: string, r: IngestState, m: nat, a: nat, b: nat)
    requires PrevInRange(st) && ValidDb(st.db) && ValidDb(r.db)
    requires CountsPairs(st.db, ws) && HasRead(st, ws)
    requires Texts(r.db) == (if token in Texts(st.db) then Texts(st.db) else Texts(st.db) + [token])
    requires m < |r.db| && r.db[m].data == token
    requires a < |r.db| && b < |r.db|
    requires Frequency(r.db[a].frequencyList, b)
             == (if a < |st.db| then Frequency(st.db[a].frequencyList, b) else 0)
                + (if st.prev == Some(a) && b == m then 1 else 0)
    ensures Frequency(r.db[a].frequencyList, b) == PairCount(ws + [token], r.db[a].data, r.db[b].data)
  {
    PairCountSnoc(ws, token, r.db[a].data, r.db[b].data);
    PairOld(st, ws, token, r, a, b);
    PairNew(st, ws, token, r, m, a, b);
  }

  /** Before the token, the frequency of a -> b (0 for a new node) is the pair count of the words read. */
  lemma {:induction false} PairOld(st: IngestState, ws: seq<string>, token: string, r: IngestState, a: nat, b: nat)
    requires ValidDb(st.db) && CountsPairs(st.db, ws)
    requires forall w :: w in ws ==> w in Texts(st.db)
    requires Texts(r.db) == (if token in Texts(st.db) then Texts(st.db) else Texts(st.db) + [token])
    requires a < |r.db| && b < |r.db|
    ensures (if a < |st.db| then Frequency(st.db[a].frequencyList, b) else 0)
              == PairCount(ws, r.db[a].data, r.db[b].data)
    ensures b >= |st.db| ==> PairCount(ws, r.db[a].data, r.db[b].data) == 0
    ensures a < |st.db| && b >= |st.db| ==> Frequency(st.db[a].frequencyList, b) == 0
  {
    var db := st.db;
    var x, y := r.db[a].data, r.db[b].data;
    assert Texts(r.db)[a] == x && Texts(r.db)[b] == y;
    if a < |db| && b < |db| {
      assert Texts(db)[a] == x && Texts(db)[b] == y;
    } else {
      var newText := if a < |db| then y else x;
      assert newText == token && token !in Texts(db);
      assert newText !in ws;
      PairCountAbsent(ws, x, y);
      if a < |db| {
        assert !HasTarget(db[a].frequencyList, b);
        FrequencyAbsent(db[a].frequencyList, b);
      }
    }
  }

  /**
   * The transition this token records, `prev_node` -> the token's node, is
   * a -> b exactly when the last word read is a's text, does not end in
   * '.', and the token is b's text.
   */
  lemma {:induction false} PairNew(st: IngestState, ws: seq<string>, token: string, r: IngestState, m: nat, a: nat, b: nat)
    requires PrevInRange(st) && ValidDb(st.db) && ValidDb(r.db) && HasRead(st, ws)
    requires Texts(r.db) == (if token in Texts(st.db) then Texts(st.db) else Texts(st.db) + [token])
    requires m < |r.db| && r.db[m].data == token
    requires a < |r.db| && b < |r.db|
    ensures (st.prev == Some(a) && b == m)
              <==> (|ws| > 0 && ws[|ws| - 1] == r.db[a].data && token == r.db[b].data && !EndsWithPeriod(r.db[a].data))
  {
    var db := st.db;
    var x, y := r.db[a].data, r.db[b].data;
    assert Texts(r.db)[a] == x && Texts(r.db)[b] == y;
    if st.prev == Some(a) {
      assert Texts(db)[a] == x;
    }
    if |ws| > 0 && ws[|ws| - 1] == x && token == y && !EndsWithPeriod(x) {
      var last := ws[|ws| - 1];
      assert last in ws;
      LookupSpec(db, last);
      var p := Lookup(db, last).value;
      assert Texts(db)[p] == x && Texts(r.db)[p] == x;
      assert Texts(r.db)[m] == y;
    }
  }

  /** Over a successful run, the frequencies stay equal to the pair counts of the consumed tokens. */
  lemma {:induction false} RunCounts(st: IngestState, tokens: seq<string>, i: nat, n: nat, nodeAlloc: nat -> bool, edgeAlloc: nat -> bool)
    requires PrevInRange(st) && i <= n <= |tokens| && ValidDb(st.db) && !st.failed
    requires forall j :: 0 <= j < |tokens| ==> |tokens[j]| > 0
    requires !Run(st, tokens, i, n, nodeAlloc, edgeAlloc).failed
    requires CountsPairs(st.db, tokens[..i]) && HasRead(st, tokens[..i])
    ensures CountsPairs(Run(st, tokens, i, n, nodeAlloc, edgeAlloc).db, tokens[..n])
    decreases n - i
  {
    if i < n {
      var next := Step(st.db, st.prev, tokens[i], nodeAlloc(i), edgeAlloc(i));
      StepCountsAt(st, tokens, i, nodeAlloc(i), edgeAlloc(i));
      RunCounts(next, tokens, i + 1, n, nodeAlloc, edgeAlloc);
    } else {
      assert i == n;
    }
  }

  /**
   * Starting from an empty chain, a successful fill_database records for
   * every pair of nodes a -> b the number of positions where token a is
   * immediately followed by token b, a not ending in '.'. In particular a
   * transition comes only from the token just before, and none leads into
   * the first token from nowhere.
   */
  lemma {:induction false} IngestCounts(tokens: seq<string>, n: nat, nodeAlloc: nat -> bool, edgeAlloc: nat -> bool)
    requires n <= |tokens| && forall j :: 0 <= j < |tokens| ==> |tokens[j]| > 0
    requires !Ingest([], tokens, n, nodeAlloc, edgeAlloc).failed
    ensures CountsPairs(Ingest([], tokens, n, nodeAlloc, edgeAlloc).db, tokens[..n])
  {
    RunCounts(IngestState([], None, false), tokens, 0, n, nodeAlloc, edgeAlloc);
  }
}

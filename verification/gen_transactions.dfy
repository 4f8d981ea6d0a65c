/** The synthetic transaction generator of lecture-material/week-11/gen-transactions.py:
    a table of transition weights over ordered pairs of distinct items, and transactions
    produced as random walks that never revisit an item.

    The pseudo-random generator is an explicit stream of draws (`Rng`) that is threaded
    through every operation in the order the script consumes it. */
module TransactionGen {
  import opened Collections
  import opened Text

  type Item = string

  /** `next_item_prob`: weight of going from the outer key to the inner key. */
  type Table = map<Item, map<Item, real>>

  /** One answer of the random source. `unit` is what `random.random()` returns;
      `pick` is the index that `random.choice`/`random.choices` settles on when
      offered candidates with the given weights. Its distribution is not modelled. */
  datatype Draw = Draw(unit: real, pick: seq<real> -> nat)

  /** The random stream: `draws(pos)` is the next draw to be consumed. */
  datatype Rng = Rng(draws: nat -> Draw, pos: nat) {
    function Current(): Draw {
      draws(pos)
    }

    function Advance(): Rng {
      this.(pos := pos + 1)
    }
  }

  /** Every unit draw lies in [0, 1), as `random.random()` promises. */
  ghost predicate UnitStream(r: Rng) {
    forall n: nat :: 0.0 <= r.draws(n).unit < 1.0
  }

  // ---------------------------------------------------------------------------
  // The transition weight table

  /** The row of the table for source `src` over destinations `dests`: one fresh
      draw per destination other than the source itself, taken in list order. */
  function BuildRow(src: Item, dests: seq<Item>, r: Rng): (res: (map<Item, real>, Rng))
    requires Distinct(dests)
    ensures res.0.Keys == Elems(dests) - {src}
    ensures res.1.draws == r.draws
    ensures res.1.pos == r.pos + |dests| - (if src in dests then 1 else 0)
    ensures UnitStream(r) ==> forall b :: b in res.0 ==> 0.0 <= res.0[b] < 1.0
  {
    if |dests| == 0 then (map[], r)
    else
      assert Elems(dests) == {dests[0]} + Elems(dests[1..]);
      if dests[0] == src then BuildRow(src, dests[1..], r)
      else
        var rest := BuildRow(src, dests[1..], r.Advance());
        (rest.0[dests[0] := r.Current().unit], rest.1)
  }

  /** The rows of the table for the sources `srcs`, built one after another, each
      row over the whole alphabet. */
  function BuildRows(items: seq<Item>, srcs: seq<Item>, r: Rng): (res: (Table, Rng))
    requires Distinct(items)
    ensures res.0.Keys == Elems(srcs)
    ensures forall a :: a in res.0 ==> res.0[a].Keys == Elems(items) - {a}
    ensures res.1.draws == r.draws
    ensures UnitStream(r) ==> forall a, b :: a in res.0 && b in res.0[a] ==> 0.0 <= res.0[a][b] < 1.0
  {
    if |srcs| == 0 then (map[], r)
    else
      assert Elems(srcs) == {srcs[0]} + Elems(srcs[1..]);
      var row := BuildRow(srcs[0], items, r);
      var rest := BuildRows(items, srcs[1..], row.1);
      (rest.0[srcs[0] := row.0], rest.1)
  }

  /** Each row takes one draw per other item: n - 1 draws per source. */
  lemma {:induction false} BuildRowsDraws(items: seq<Item>, srcs: seq<Item>, r: Rng)
    requires Distinct(items) && forall a :: a in srcs ==> a in items
    ensures BuildRows(items, srcs, r).1.pos == r.pos + Times(|srcs|, |items| - 1)
  {
    if |srcs| > 0 {
      var r1 := BuildRow(srcs[0], items, r).1;
      assert srcs[0] in items;
      BuildRowsDraws(items, srcs[1..], r1);
    }
  }

  /** `m * n` by repeated addition, which keeps the draw count linear step by step. */
  function Times(m: nat, n: int): (k: int)
    ensures k == m * n
  {
    if m == 0 then 0 else n + Times(m - 1, n)
  }

  /** `next_item_prob` as the script builds it: sources in alphabet order, and for
      each source its destinations in alphabet order, skipping the source itself.
      It takes n * (n - 1) draws, and from draws in [0, 1) every weight lies in [0, 1). */
  function BuildTable(items: seq<Item>, r: Rng): (res: (Table, Rng))
    requires Distinct(items)
    ensures Complete(items, res.0)
    ensures res.1.draws == r.draws
    ensures res.1.pos == r.pos + |items| * (|items| - 1)
    ensures UnitStream(r) ==> forall a, b :: a in res.0 && b in res.0[a] ==> 0.0 <= res.0[a][b] < 1.0
  {
    BuildRowsDraws(items, items, r);
    BuildRows(items, items, r)
  }

  /** The table has a row for every item, holding a weight for every other item. */
  predicate Complete(items: seq<Item>, t: Table) {
    && t.Keys == Elems(items)
    && forall a :: a in t ==> t[a].Keys == Elems(items) - {a}
  }

  /** The (source, destination) pairs a table holds a weight for. */
  function Entries(t: Table): set<(Item, Item)> {
    set a, b | a in t && b in t[a] :: (a, b)
  }

  /** Ordered pairs of distinct members of `s`. */
  function OrderedPairs(s: set<Item>): set<(Item, Item)> {
    set a, b | a in s && b in s && a != b :: (a, b)
  }

  /** The table has an entry exactly for each ordered pair of distinct items:
      n * (n - 1) of them, none pairing an item with itself. */
  lemma TableEntries(items: seq<Item>, r: Rng)
    requires Distinct(items)
    ensures Entries(BuildTable(items, r).0) == OrderedPairs(Elems(items))
    ensures |Entries(BuildTable(items, r).0)| == |items| * (|items| - 1)
    ensures forall a :: (a, a) !in Entries(BuildTable(items, r).0)
  {
    var t := BuildTable(items, r).0;
    CompleteEntries(items, t);
    var k := |Elems(items)|;
    OrderedPairsCardinality(Elems(items));
    assert |Entries(t)| == k * (k - 1);
    DistinctCardinality(items);
    assert k == |items|;
  }

  /** A complete table's entries are the ordered pairs of distinct items. */
  lemma CompleteEntries(items: seq<Item>, t: Table)
    requires Complete(items, t)
    ensures Entries(t) == OrderedPairs(Elems(items))
  {
    forall e | e in OrderedPairs(Elems(items)) ensures e in Entries(t) {
      assert e.0 in t && e.1 in t[e.0];
    }
  }

  lemma {:induction false} OrderedPairsCardinality(s: set<Item>)
    ensures |OrderedPairs(s)| == |s| * (|s| - 1)
    decreases |s|
  {
    if s != {} {
      var x :| x in s;
      var rest := s - {x};
      OrderedPairsCardinality(rest);
      var inner, outgoing, incoming := OrderedPairsSplit(s, x);
      OutgoingCardinality(x, rest);
      IncomingCardinality(x, rest);
      DisjointUnionCardinality(inner, outgoing);
      DisjointUnionCardinality(inner + outgoing, incoming);
      PairCountSucc(|s|, |rest|);
    } else {
      assert OrderedPairs(s) == {};
    }
  }

  lemma DisjointUnionCardinality<T>(a: set<T>, b: set<T>)
    requires a !! b
    ensures |a + b| == |a| + |b|
  {
    assert a * b == {};
  }

  lemma PairCountSucc(n: int, m: int)
    requires n == m + 1
    ensures n * (n - 1) == m * (m - 1) + m + m
  {
  }

  /** The ordered pairs over `s` are those over `s - {x}`, the pairs leaving `x`
      and the pairs entering `x`, three disjoint sets. */
  lemma OrderedPairsSplit(s: set<Item>, x: Item) returns (inner: set<(Item, Item)>, outgoing: set<(Item, Item)>, incoming: set<(Item, Item)>)
    requires x in s
    ensures inner == OrderedPairs(s - {x})
    ensures outgoing == set b | b in s - {x} :: (x, b)
    ensures incoming == set a | a in s - {x} :: (a, x)
    ensures OrderedPairs(s) == inner + outgoing + incoming
    ensures inner !! outgoing && inner + outgoing !! incoming
  {
    inner := OrderedPairs(s - {x});
    outgoing := set b | b in s - {x} :: (x, b);
    incoming := set a | a in s - {x} :: (a, x);
  }

  lemma {:induction false} OutgoingCardinality(x: Item, s: set<Item>)
    ensures |set b | b in s :: (x, b)| == |s|
    decreases |s|
  {
    if s != {} {
      var y :| y in s;
      OutgoingCardinality(x, s - {y});
      assert (set b | b in s :: (x, b)) == (set b | b in s - {y} :: (x, b)) + {(x, y)};
    }
  }

  lemma {:induction false} IncomingCardinality(x: Item, s: set<Item>)
    ensures |set a | a in s :: (a, x)| == |s|
    decreases |s|
  {
    if s != {} {
      var y :| y in s;
      IncomingCardinality(x, s - {y});
      assert (set a | a in s :: (a, x)) == (set a | a in s - {y} :: (a, x)) + {(y, x)};
    }
  }

  // ---------------------------------------------------------------------------
  // One transaction as a random walk

  /** `P(p)`: one draw from the stream, true when it falls strictly below `p`.
      With draws in [0, 1), `p = 0` never fires and `p = 1` always does. */
  function P(p: real, r: Rng): (res: (bool, Rng))
    ensures res.0 <==> r.draws(r.pos).unit < p
    ensures res.1 == r.(pos := r.pos + 1)
    ensures 0.0 <= r.draws(r.pos).unit < 1.0 ==> (p <= 0.0 ==> !res.0) && (p >= 1.0 ==> res.0)
  {
    (r.Current().unit < p, r.Advance())
  }

  /** `random.choices(candidates, weights)[0]` and `random.choice(candidates)`:
      the candidate at the index the draw picks, reduced to the candidates' range. */
  function Choose(candidates: seq<Item>, weights: seq<real>, d: Draw): (c: Item)
    requires |candidates| >= 1 && |weights| == |candidates|
    ensures c in candidates
  {
    candidates[d.pick(weights) % |candidates|]
  }

  /** Every candidate is the choice of some draw. */
  lemma ChooseReachesEveryCandidate(candidates: seq<Item>, weights: seq<real>, m: nat)
    requires m < |candidates| && |weights| == |candidates|
    ensures Choose(candidates, weights, Draw(0.0, _ => m)) == candidates[m]
  {
  }

  /** Equal weights, the case of `random.choice`. */
  function Uniform(n: nat): (w: seq<real>)
    ensures |w| == n && forall m :: 0 <= m < n ==> w[m] == 1.0
  {
    seq(n, _ => 1.0)
  }

  /** `next_choices`: the items still left. The script lists them in the iteration
      order of a Python set; the model lists them in alphabet order. */
  function Candidates(items: seq<Item>, left: set<Item>): (cs: seq<Item>)
    requires Distinct(items)
    ensures Distinct(cs)
    ensures Elems(cs) == Elems(items) * left
  {
    if |items| == 0 then []
    else
      var rest := Candidates(items[1..], left);
      assert Elems(items) == {items[0]} + Elems(items[1..]);
      if items[0] in left then
        assert items[0] !in Elems(items[1..]);
        assert Elems([items[0]] + rest) == {items[0]} + Elems(rest);
        [items[0]] + rest
      else rest
  }

  /** `weights`: the table entries from the previous choice to each candidate, one
      per candidate; from a table of weights in [0, 1) every weight lies in [0, 1). */
  function Weights(t: Table, prev: Item, candidates: seq<Item>): (w: seq<real>)
    requires prev in t && forall c :: c in candidates ==> c in t[prev]
    ensures |w| == |candidates|
    ensures (forall b :: b in t[prev] ==> 0.0 <= t[prev][b] < 1.0) ==>
      forall m :: 0 <= m < |w| ==> 0.0 <= w[m] < 1.0
  {
    seq(|candidates|, m requires 0 <= m < |candidates| => t[prev][candidates[m]])
  }

  /** The state of `gen_transaction`'s loop: `items_chosen`, `items_left` and the random stream. */
  datatype WalkState = WalkState(chosen: seq<Item>, left: set<Item>, rng: Rng)

  /** The loop invariant: the chosen items (at least one, no repeats) and the items
      left are disjoint and together make up the alphabet. */
  predicate Partitions(items: seq<Item>, chosen: seq<Item>, left: set<Item>) {
    && |chosen| >= 1
    && Distinct(chosen)
    && Elems(chosen) !! left
    && Elems(chosen) + left == Elems(items)
  }

  /** Moving one item from the items left to the end of the chosen ones keeps the invariant. */
  lemma ExtendPreservesPartition(items: seq<Item>, chosen: seq<Item>, left: set<Item>, x: Item)
    requires Partitions(items, chosen, left) && x in left
    ensures Partitions(items, chosen + [x], left - {x})
  {
    assert Elems(chosen + [x]) == Elems(chosen) + {x};
    assert x !in chosen by {
      assert x !in Elems(chosen);
    }
  }

  /** Chosen and left items together number the alphabet's size. */
  lemma PartitionSizes(items: seq<Item>, s: WalkState)
    requires Distinct(items) && Partitions(items, s.chosen, s.left)
    ensures |s.chosen| + |s.left| == |items|
  {
    DistinctCardinality(items);
    DistinctCardinality(s.chosen);
  }

  /** Before the loop: a start item chosen uniformly from the alphabet, and every other item left. */
  function Start(items: seq<Item>, r: Rng): (s: WalkState)
    requires |items| >= 1 && Distinct(items)
    ensures Partitions(items, s.chosen, s.left)
    ensures |s.chosen| == 1 && s.chosen[0] in items
    ensures s.left == Elems(items) - {s.chosen[0]}
    ensures s.rng == r.(pos := r.pos + 1)
  {
    var first := Choose(items, Uniform(|items|), r.Current());
    assert Elems([first]) == {first};
    WalkState([first], Elems(items) - {first}, r.Advance())
  }

  function Last(s: seq<Item>): Item
    requires |s| >= 1
  {
    s[|s| - 1]
  }

  /** The item appended by one extension. The previous choice has a row in the table
      holding every candidate, so the weight lookup never fails; the candidates are
      the items left; and the item is the pick among them under that row's weights. */
  function NextItem(items: seq<Item>, t: Table, chosen: seq<Item>, left: set<Item>, d: Draw): (x: Item)
    requires Distinct(items) && Complete(items, t) && Partitions(items, chosen, left) && |left| >= 1
    ensures Last(chosen) in t && forall c :: c in Candidates(items, left) ==> c in t[Last(chosen)]
    ensures Elems(Candidates(items, left)) == left && |Candidates(items, left)| >= 1
    ensures x == Choose(Candidates(items, left), Weights(t, Last(chosen), Candidates(items, left)), d)
    ensures x in left
  {
    var prev := Last(chosen);
    assert prev in Elems(chosen);
    assert prev in t && t[prev].Keys == Elems(items) - {prev};
    var cs := Candidates(items, left);
    assert Elems(cs) == left;
    assert |cs| >= 1 by {
      var y :| y in left;
      assert y in Elems(cs);
    }
    var x := Choose(cs, Weights(t, prev, cs), d);
    assert x in Elems(cs);
    x
  }

  /** Only the previous choice's row of the table matters: two tables that agree on
      that row lead to the same next item. */
  lemma NextItemReadsPreviousRow(items: seq<Item>, t1: Table, t2: Table, chosen: seq<Item>, left: set<Item>, d: Draw)
    requires Distinct(items) && Complete(items, t1) && Complete(items, t2)
    requires Partitions(items, chosen, left) && |left| >= 1
    requires t1[Last(chosen)] == t2[Last(chosen)]
    ensures NextItem(items, t1, chosen, left, d) == NextItem(items, t2, chosen, left, d)
  {
    var cs := Candidates(items, left);
    var x1 := NextItem(items, t1, chosen, left, d);
    var x2 := NextItem(items, t2, chosen, left, d);
    assert Weights(t1, Last(chosen), cs) == Weights(t2, Last(chosen), cs);
  }

  /** The body of the loop past the stop check, whose draw was at `s.rng.pos`:
      append the next item, drawn at `s.rng.pos + 1`, and remove it from the items left. */
  function Extend(items: seq<Item>, t: Table, s: WalkState): (s': WalkState)
    requires Distinct(items) && Complete(items, t) && Partitions(items, s.chosen, s.left) && |s.left| >= 1
    ensures Partitions(items, s'.chosen, s'.left)
    ensures |s'.chosen| == |s.chosen| + 1 && s'.chosen[..|s.chosen|] == s.chosen
    ensures Last(s'.chosen) in s.left && s'.left == s.left - {Last(s'.chosen)}
    ensures Last(s'.chosen) == NextItem(items, t, s.chosen, s.left, s.rng.draws(s.rng.pos + 1))
    ensures s'.rng == s.rng.(pos := s.rng.pos + 2)
  {
    var x := NextItem(items, t, s.chosen, s.left, s.rng.draws(s.rng.pos + 1));
    ExtendPreservesPartition(items, s.chosen, s.left, x);
    assert (s.chosen + [x])[..|s.chosen|] == s.chosen;
    WalkState(s.chosen + [x], s.left - {x}, s.rng.(pos := s.rng.pos + 2))
  }

  datatype StepResult = Stopped(state: WalkState) | Extended(state: WalkState)

  /** One iteration of the loop, entered while items are left: stop when `P` fires,
      otherwise extend the walk by one item. */
  function Step(items: seq<Item>, t: Table, p: real, s: WalkState): (res: StepResult)
    requires Distinct(items) && Complete(items, t) && Partitions(items, s.chosen, s.left) && |s.left| >= 1
    ensures Partitions(items, res.state.chosen, res.state.left)
    ensures res.Stopped? <==> s.rng.draws(s.rng.pos).unit < p
    ensures res.Stopped? ==> res.state == s.(rng := s.rng.(pos := s.rng.pos + 1))
    ensures res.Extended? ==> res.state == Extend(items, t, s)
  {
    if P(p, s.rng).0 then Stopped(s.(rng := s.rng.(pos := s.rng.pos + 1)))
    else Extended(Extend(items, t, s))
  }

  /** The loop of `gen_transaction`, run to its end: until `P` fires or no item is
      left. The chosen items always partition the alphabet with the items left. */
  function Walk(items: seq<Item>, t: Table, p: real, s: WalkState): (f: WalkState)
    requires Distinct(items) && Complete(items, t) && Partitions(items, s.chosen, s.left)
    ensures Partitions(items, f.chosen, f.left)
    ensures f.rng.draws == s.rng.draws
    decreases |s.left|
  {
    if s.left == {} then s
    else
      var next := Step(items, t, p, s);
      if next.Stopped? then next.state
      else
        Walk(items, t, p, next.state)
  }

  /** Each extension takes two draws and a stop one more. */
  lemma {:induction false} WalkDraws(items: seq<Item>, t: Table, p: real, s: WalkState)
    requires Distinct(items) && Complete(items, t) && Partitions(items, s.chosen, s.left)
    ensures var f := Walk(items, t, p, s);
      f.rng.pos == s.rng.pos + 2 * (|f.chosen| - |s.chosen|) + (if f.left == {} then 0 else 1)
    decreases |s.left|
  {
    if s.left != {} {
      var next := Step(items, t, p, s);
      if next.Extended? {
        WalkDraws(items, t, p, next.state);
      }
    }
  }

  /** What every transaction is: one to n items of the alphabet, none repeated. */
  predicate IsTransaction(items: seq<Item>, tx: seq<Item>) {
    && 1 <= |tx| <= |items|
    && Distinct(tx)
    && Elems(tx) <= Elems(items)
  }

  /** `gen_transaction`: the walk from a random start item. One draw picks the start,
      then each extension takes two draws (the stop check and the pick) and a stop
      takes one, so a transaction that ends before exhausting the alphabet has used
      exactly one draw more than one that does not. */
  function GenTransaction(items: seq<Item>, t: Table, p: real, r: Rng): (res: (seq<Item>, Rng))
    requires |items| >= 1 && Distinct(items) && Complete(items, t)
    ensures IsTransaction(items, res.0)
    ensures res.0[0] in items
    ensures res.1.draws == r.draws
    ensures res.1.pos == r.pos + 2 * |res.0| - (if |res.0| == |items| then 1 else 0)
  {
    var s := Start(items, r);
    var f := Walk(items, t, p, s);
    WalkDraws(items, t, p, s);
    PartitionSizes(items, f);
    assert f.chosen[0] in Elems(f.chosen);
    (f.chosen, f.rng)
  }

  /** With draws in [0, 1) and `p <= 0` the stop check never fires and the walk
      exhausts the alphabet. */
  lemma {:induction false} WalkNeverStopping(items: seq<Item>, t: Table, p: real, s: WalkState)
    requires Distinct(items) && Complete(items, t) && Partitions(items, s.chosen, s.left)
    requires p <= 0.0 && UnitStream(s.rng)
    ensures Walk(items, t, p, s).left == {}
    decreases |s.left|
  {
    if s.left != {} {
      var next := Step(items, t, p, s);
      assert next.Extended?;
      WalkNeverStopping(items, t, p, next.state);
    }
  }

  /** With draws in [0, 1) and `p >= 1` the first stop check fires. */
  lemma WalkAlwaysStopping(items: seq<Item>, t: Table, p: real, s: WalkState)
    requires Distinct(items) && Complete(items, t) && Partitions(items, s.chosen, s.left)
    requires p >= 1.0 && UnitStream(s.rng)
    ensures Walk(items, t, p, s).chosen == s.chosen
  {
  }

  /** If the stop check never fires, the transaction is a permutation of the alphabet. */
  lemma NeverStoppingGivesPermutation(items: seq<Item>, t: Table, p: real, r: Rng)
    requires |items| >= 1 && Distinct(items) && Complete(items, t)
    requires p <= 0.0 && UnitStream(r)
    ensures |GenTransaction(items, t, p, r).0| == |items|
    ensures multiset(GenTransaction(items, t, p, r).0) == multiset(items)
  {
    var s := Start(items, r);
    WalkNeverStopping(items, t, p, s);
    var f := Walk(items, t, p, s);
    PartitionSizes(items, f);
    DistinctSameElemsPermutation(f.chosen, items);
  }

  /** If the stop check always fires, the transaction is the start item alone. */
  lemma AlwaysStoppingGivesSingleton(items: seq<Item>, t: Table, p: real, r: Rng)
    requires |items| >= 1 && Distinct(items) && Complete(items, t)
    requires p >= 1.0 && UnitStream(r)
    ensures GenTransaction(items, t, p, r).0 == [Choose(items, Uniform(|items|), r.draws(r.pos))]
  {
    WalkAlwaysStopping(items, t, p, Start(items, r));
  }

  // ---------------------------------------------------------------------------
  // The transaction set and its serialisation

  /** `[gen_transaction() for _ in range(num)]`: transactions generated one after
      another from one shared stream that is never reset. */
  function GenerateAll(items: seq<Item>, t: Table, p: real, num: nat, r: Rng): (res: (seq<seq<Item>>, Rng))
    requires |items| >= 1 && Distinct(items) && Complete(items, t)
    ensures |res.0| == num
    ensures forall j :: 0 <= j < num ==> IsTransaction(items, res.0[j])
    ensures res.1.draws == r.draws
    ensures res.1.pos >= r.pos + num
    decreases num
  {
    if num == 0 then ([], r)
    else
      var first := GenTransaction(items, t, p, r);
      var rest := GenerateAll(items, t, p, num - 1, first.1);
      ([first.0] + rest.0, rest.1)
  }

  /** With `p <= 0` every generated transaction is a permutation of the alphabet. */
  lemma {:induction false} GenerateAllNeverStopping(items: seq<Item>, t: Table, p: real, num: nat, r: Rng)
    requires |items| >= 1 && Distinct(items) && Complete(items, t)
    requires p <= 0.0 && UnitStream(r)
    ensures forall j :: 0 <= j < num ==>
      multiset(GenerateAll(items, t, p, num, r).0[j]) == multiset(items)
    decreases num
  {
    if num > 0 {
      var first := GenTransaction(items, t, p, r);
      var rest := GenerateAll(items, t, p, num - 1, first.1).0;
      assert GenerateAll(items, t, p, num, r).0 == [first.0] + rest;
      assert multiset(first.0) == multiset(items) by {
        NeverStoppingGivesPermutation(items, t, p, r);
      }
      assert UnitStream(first.1) by {
        assert first.1.draws == r.draws;
      }
      GenerateAllNeverStopping(items, t, p, num - 1, first.1);
      ConsPermutations(first.0, rest, items);
    }
  }

  /** Putting one more permutation of `items` in front of a list of them. */
  lemma ConsPermutations(x: seq<Item>, rest: seq<seq<Item>>, items: seq<Item>)
    requires multiset(x) == multiset(items)
    requires forall j :: 0 <= j < |rest| ==> multiset(rest[j]) == multiset(items)
    ensures forall j :: 0 <= j < |rest| + 1 ==> multiset(([x] + rest)[j]) == multiset(items)
  {
    forall j | 0 <= j < |rest| + 1 ensures multiset(([x] + rest)[j]) == multiset(items) {
      if j > 0 {
        assert ([x] + rest)[j] == rest[j - 1];
      }
    }
  }

  /** The comment line the output starts with, "# Each line represents an individual
      transaction", kept as its words. */
  const HeaderWords: seq<string> := ["#", "Each", "line", "represents", "an", "individual", "transaction"]
  const Header: string := Join(HeaderWords, ' ')

  /** The output file: the header line, a newline, then the transactions, items
      joined by commas and transactions by newlines, with no newline after the last. */
  function Serialize(ts: seq<seq<Item>>): string {
    Header + "\n" + Join(JoinEach(ts, ','), '\n')
  }

  /** Reading the output back: the header, then one line per transaction, which
      splits on commas into that transaction. */
  lemma SerializeRoundTrip(ts: seq<seq<Item>>)
    requires |ts| >= 1 && Plain(ts, ',', '\n')
    requires forall j :: 0 <= j < |ts| ==> |ts[j]| >= 1
    ensures |Split(Serialize(ts), '\n')| == |ts| + 1
    ensures Split(Serialize(ts), '\n')[0] == Header
    ensures forall j :: 0 <= j < |ts| ==> Split(Split(Serialize(ts), '\n')[j + 1], ',') == ts[j]
  {
    HeaderIsOneLine();
    HeadedRowsRoundTrip(Header, ts, ',', '\n');
    JoinEachRoundTrip(ts, ',', '\n');
  }

  /** An item a line of the output can hold unambiguously. */
  predicate PlainItem(x: Item) {
    ',' !in x && '\n' !in x
  }

  lemma HeaderIsOneLine()
    ensures '\n' !in Header
  {
    forall k | 0 <= k < |HeaderWords| ensures '\n' !in HeaderWords[k] {
    }
    JoinAvoids(HeaderWords, ' ', '\n');
  }

  /** With no transactions the output is the header line and its newline. */
  lemma SerializeEmpty()
    ensures Serialize([]) == Header + "\n"
  {
  }

  /** `main`: build the table from the start of the stream, generate `num`
      transactions from where the table left off, and serialise them. */
  function GenerateFile(items: seq<Item>, p: real, num: nat, r: Rng): string
    requires |items| >= 1 && Distinct(items)
  {
    var table := BuildTable(items, r);
    Serialize(GenerateAll(items, table.0, p, num, table.1).0)
  }

  /** The output has `num + 1` lines, and each line after the header splits on
      commas into a repeat-free list of one to n alphabet items. */
  lemma GenerateFileLines(items: seq<Item>, p: real, num: nat, r: Rng)
    requires |items| >= 1 && Distinct(items) && num >= 1
    requires forall k :: 0 <= k < |items| ==> PlainItem(items[k])
    ensures var lines := Split(GenerateFile(items, p, num, r), '\n');
      && |lines| == num + 1
      && lines[0] == Header
      && forall j :: 1 <= j <= num ==> IsTransaction(items, Split(lines[j], ','))
  {
    var table := BuildTable(items, r);
    var ts := GenerateAll(items, table.0, p, num, table.1).0;
    forall j, k | 0 <= j < |ts| && 0 <= k < |ts[j]| ensures PlainItem(ts[j][k]) {
      assert ts[j][k] in Elems(ts[j]);
    }
    assert Plain(ts, ',', '\n');
    SerializeRoundTrip(ts);
    var lines := Split(Serialize(ts), '\n');
    forall j | 1 <= j <= num ensures IsTransaction(items, Split(lines[j], ',')) {
      assert Split(lines[(j - 1) + 1], ',') == ts[j - 1];
    }
  }

  /** The script's configuration. */
  const Alphabet: seq<Item> := ["A", "B", "C", "D", "E"]
  const NumTransactions: nat := 100
  const EndTransactionP: real := 0.25

  /** With the script's configuration the file has 101 lines: the header and one
      transaction of one to five of the letters per line. */
  lemma ConfiguredFileLines(r: Rng)
    ensures var lines := Split(GenerateFile(Alphabet, EndTransactionP, NumTransactions, r), '\n');
      && |lines| == 101
      && lines[0] == Header
      && forall j :: 1 <= j <= 100 ==> IsTransaction(Alphabet, Split(lines[j], ','))
  {
    AlphabetIsValid();
    GenerateFileLines(Alphabet, EndTransactionP, NumTransactions, r);
  }

  /** The configured alphabet is a valid one: five distinct one-letter items. */
  lemma AlphabetIsValid()
    ensures |Alphabet| == 5 && Distinct(Alphabet)
    ensures forall k :: 0 <= k < |Alphabet| ==> PlainItem(Alphabet[k])
  {
  }
}

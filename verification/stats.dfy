/** The statistics passes over a finished trie: `search_one`, `search_bi`,
    `search_left` and `search_right` (model.py:154-283). The logarithmic
    functions are parameters: `pmi(c, t, px, py)` stands for
    `log2(c) - log2(t) - log2(px) - log2(py)`, and `log2` for
    `math.log(x, 2)` on positive arguments. */
module Stats {
  import opened Results
  import opened PyDict
  import opened Trie

  // ---------------------------------------------------------------------
  // search_one

  /** The sum of the counts of the finished nodes among `cs`. */
  function FinishedTotal(cs: seq<Node>): int {
    if |cs| == 0 then 0
    else FinishedTotal(cs[..|cs| - 1]) + (if cs[|cs| - 1].finished then cs[|cs| - 1].count else 0)
  }

  predicate AnyFinished(cs: seq<Node>) {
    exists i :: 0 <= i < |cs| && cs[i].finished
  }

  /** The second loop of `search_one` (model.py:174-176) over `cs`, in order:
      each finished child assigns `child.count / total`, and the first such
      division by a zero total raises `ZeroDivisionError`. */
  function UnigramPass(cs: seq<Node>, total: int): (r: Result<seq<(Token, real)>>)
    ensures total != 0 ==> r.Ok?
    ensures r.Err? ==> r.error == ZeroDivision
  {
    if |cs| == 0 then Ok([])
    else
      var done :- UnigramPass(cs[..|cs| - 1], total);
      var c := cs[|cs| - 1];
      if !c.finished then Ok(done)
      else if total == 0 then Err(ZeroDivision)
      else Ok(done + [(c.token, c.count as real / total as real)])
  }

  /** The assignments of a pass that never divides by zero. */
  function UnigramItems(cs: seq<Node>, total: int): seq<(Token, real)>
    requires total != 0
  {
    UnigramPass(cs, total).value
  }

  /** The pass fails exactly when the total is 0 and some child is finished;
      with a total of 0 and no finished child it assigns nothing. */
  lemma {:induction false} UnigramPassFails(cs: seq<Node>, total: int)
    ensures UnigramPass(cs, total).Err? <==> total == 0 && AnyFinished(cs)
    ensures UnigramPass(cs, total).Ok? && total == 0 ==> UnigramPass(cs, total).value == []
  {
    if |cs| > 0 {
      var front := cs[..|cs| - 1];
      UnigramPassFails(front, total);
      assert forall i :: 0 <= i < |front| ==> front[i] == cs[i];
      if AnyFinished(cs) && !cs[|cs| - 1].finished {
        var i :| 0 <= i < |cs| && cs[i].finished;
        assert front[i].finished;
      }
    }
  }

  /** The two shapes `search_one` returns: `(False, 0)` for a root without
      children, otherwise the probability dict and the total. */
  datatype Unigram = NoUnigram | Unigram(probs: Dict<Token, real>, total: int)

  /** `search_one` (model.py:154-177): the first loop sums the finished
      counts and the second divides by that sum, so a total of 0 fails only
      when some child is finished. */
  function SearchOne(root: Node): (r: Result<Unigram>)
    ensures r == Ok(NoUnigram) <==> |root.children| == 0
    ensures r.Err? <==> |root.children| > 0 && AnyFinished(root.children) && FinishedTotal(root.children) == 0
    ensures r.Err? ==> r.error == ZeroDivision
    ensures r.Ok? && r.value.Unigram? ==> r.value.total == FinishedTotal(root.children)
  {
    var cs := root.children;
    if |cs| == 0 then Ok(NoUnigram)
    else
      var total := FinishedTotal(cs);
      UnigramPassFails(cs, total);
      var items :- UnigramPass(cs, total);
      Ok(Unigram(FromList(items), total))
  }

  /** Each item comes from a finished child and holds its share of the total. */
  lemma {:induction false} UnigramItemsFrom(cs: seq<Node>, total: int, e: (Token, real))
    requires total != 0
    ensures e in UnigramItems(cs, total) <==>
      exists i :: 0 <= i < |cs| && cs[i].finished && e == (cs[i].token, cs[i].count as real / total as real)
  {
    if |cs| > 0 {
      var front := cs[..|cs| - 1];
      UnigramItemsFrom(front, total, e);
      assert forall i :: 0 <= i < |front| ==> front[i] == cs[i];
      if exists i :: 0 <= i < |cs| && cs[i].finished && e == (cs[i].token, cs[i].count as real / total as real) {
        var i :| 0 <= i < |cs| && cs[i].finished && e == (cs[i].token, cs[i].count as real / total as real);
        if i < |front| {
          assert front[i] == cs[i];
        }
      }
    }
  }

  /** Distinct child tokens give distinct dict keys. */
  lemma {:induction false} UnigramItemsDistinct(cs: seq<Node>, total: int)
    requires total != 0
    requires forall i, j :: 0 <= i < j < |cs| ==> cs[i].token != cs[j].token
    ensures DistinctKeys(UnigramItems(cs, total))
  {
    if |cs| > 0 {
      var front := cs[..|cs| - 1];
      var c := cs[|cs| - 1];
      UnigramItemsDistinct(front, total);
      var items := UnigramItems(front, total);
      forall m | 0 <= m < |items|
        ensures items[m].0 != c.token
      {
        UnigramItemsFrom(front, total, items[m]);
      }
    }
  }

  function SumValues<K>(d: seq<(K, real)>): real {
    if |d| == 0 then 0.0 else SumValues(d[..|d| - 1]) + d[|d| - 1].1
  }

  lemma ShareAdd(a: int, b: int, t: int)
    requires t != 0
    ensures a as real / t as real + b as real / t as real == (a + b) as real / t as real
  {
  }

  lemma SelfShare(t: int)
    requires t != 0
    ensures t as real / t as real == 1.0
  {
  }

  lemma {:induction false} UnigramItemsSum(cs: seq<Node>, total: int)
    requires total != 0
    ensures SumValues(UnigramItems(cs, total)) == FinishedTotal(cs) as real / total as real
  {
    if |cs| > 0 {
      var front := cs[..|cs| - 1];
      var c := cs[|cs| - 1];
      UnigramItemsSum(front, total);
      var items := UnigramItems(front, total);
      assert FinishedTotal(cs) == FinishedTotal(front) + (if c.finished then c.count else 0);
      if c.finished {
        var all := items + [(c.token, c.count as real / total as real)];
        assert all[..|all| - 1] == items;
        assert SumValues(all) == SumValues(items) + c.count as real / total as real;
        ShareAdd(FinishedTotal(front), c.count, total);
      } else {
        assert UnigramItems(cs, total) == items;
      }
    }
  }

  /** Under distinct child tokens the dict built from the items holds
      exactly the items. */
  lemma UnigramGet(cs: seq<Node>, total: int, tok: Token, p: real)
    requires total != 0
    requires forall i, j :: 0 <= i < j < |cs| ==> cs[i].token != cs[j].token
    ensures Get(FromList(UnigramItems(cs, total)), tok) == Some(p) <==> (tok, p) in UnigramItems(cs, total)
  {
    var items := UnigramItems(cs, total);
    UnigramItemsDistinct(cs, total);
    FromListDistinct(items);
    if (tok, p) in items {
      GetDistinct(items, tok, p);
    }
  }

  /** In a valid trie every finished child of the root appears in the
      unigram dict with probability `count / total`, and nothing else does. */
  lemma UnigramEntries(root: Node, tok: Token, p: real)
    requires Valid(root)
    requires SearchOne(root).Ok? && SearchOne(root).value.Unigram?
    ensures var u := SearchOne(root).value;
      Get(u.probs, tok) == Some(p) <==>
        exists i :: 0 <= i < |root.children| && root.children[i].finished
          && root.children[i].token == tok && p == root.children[i].count as real / u.total as real
  {
    var cs := root.children;
    var u := SearchOne(root).value;
    UnigramPassFails(cs, u.total);
    if u.total != 0 {
      assert u.probs == FromList(UnigramItems(cs, u.total));
      ShallowTokensDistinct(root);
      UnigramGet(cs, u.total, tok, p);
      UnigramItemsFrom(cs, u.total, (tok, p));
    } else {
      assert u.probs == [];
      assert !AnyFinished(cs);
    }
  }

  /** The unigram probabilities of a valid trie sum to 1 when there are any. */
  lemma UnigramSumsToOne(root: Node)
    requires Valid(root)
    requires SearchOne(root).Ok? && SearchOne(root).value.Unigram?
    requires |SearchOne(root).value.probs| > 0
    ensures SumValues(SearchOne(root).value.probs) == 1.0
  {
    var cs := root.children;
    var u := SearchOne(root).value;
    assert u.total == FinishedTotal(cs);
    UnigramPassFails(cs, u.total);
    assert u.total != 0;
    var items := UnigramItems(cs, u.total);
    assert u.probs == FromList(items);
    ShallowTokensDistinct(root);
    UnigramItemsDistinct(cs, u.total);
    FromListDistinct(items);
    UnigramItemsSum(cs, u.total);
    assert SumValues(u.probs) == u.total as real / u.total as real;
    SelfShare(u.total);
  }

  // ---------------------------------------------------------------------
  // The depth-2 nodes

  /** The children of `x`, each paired with `x`. */
  function Pairs(x: Node): seq<(Node, Node)> {
    seq(|x.children|, j requires 0 <= j < |x.children| => (x, x.children[j]))
  }

  /** The depth-2 nodes below `cs` with their depth-1 parents, in the order
      of the nested loops `for child in node.child: for ch in child.child`. */
  function Depth2(cs: seq<Node>): seq<(Node, Node)> {
    if |cs| == 0 then [] else Depth2(cs[..|cs| - 1]) + Pairs(cs[|cs| - 1])
  }

  /** The nested loops visit every depth-2 node and nothing else. */
  lemma {:induction false} Depth2Visits(cs: seq<Node>, e: (Node, Node))
    ensures e in Depth2(cs) <==>
      exists i, j :: 0 <= i < |cs| && 0 <= j < |cs[i].children| && e == (cs[i], cs[i].children[j])
  {
    if |cs| > 0 {
      var front := cs[..|cs| - 1];
      Depth2Visits(front, e);
      assert forall i :: 0 <= i < |front| ==> front[i] == cs[i];
      if exists i, j :: 0 <= i < |cs| && 0 <= j < |cs[i].children| && e == (cs[i], cs[i].children[j]) {
        var i, j :| 0 <= i < |cs| && 0 <= j < |cs[i].children| && e == (cs[i], cs[i].children[j]);
        if i == |cs| - 1 {
          assert Pairs(cs[i])[j] == e;
        } else {
          assert front[i] == cs[i];
        }
      }
      if e in Pairs(cs[|cs| - 1]) {
        var j :| 0 <= j < |cs[|cs| - 1].children| && Pairs(cs[|cs| - 1])[j] == e;
        assert e == (cs[|cs| - 1], cs[|cs| - 1].children[j]);
      }
    }
  }

  // ---------------------------------------------------------------------
  // search_bi

  /** The sum of the counts of the finished depth-2 nodes (model.py:197-203). */
  function PairTotal(ps: seq<(Node, Node)>): int {
    if |ps| == 0 then 0
    else PairTotal(ps[..|ps| - 1]) + (var y := ps[|ps| - 1].1; if y.finished then y.count else 0)
  }

  /** The key `child.char + '_' + ch.char` of model.py:218. */
  function PairKey(x: Node, y: Node): string {
    x.token + "_" + y.token
  }

  /** The PMI of the pair `x, y` (model.py:212-214), or the exception its
      evaluation raises, in Python's left-to-right order: `log(total)` of a
      non-positive total, then each unigram lookup and the `log` of its value. */
  function PairPmi(x: Node, y: Node, one: Dict<Token, real>, total: int,
                   pmi: (int, int, real, real) -> real): (r: Result<real>)
    ensures r.Ok? ==> total > 0
    ensures r.Err? ==> r.error == MathDomain || r.error == KeyError
    ensures r.Ok? <==> (total > 0
      && Get(one, x.token).Some? && Get(one, x.token).value > 0.0
      && Get(one, y.token).Some? && Get(one, y.token).value > 0.0)
  {
    if total <= 0 then Err(MathDomain)
    else match Get(one, x.token)
      case None => Err(KeyError)
      case Some(px) =>
        if px <= 0.0 then Err(MathDomain)
        else match Get(one, y.token)
          case None => Err(KeyError)
          case Some(py) =>
            if py <= 0.0 then Err(MathDomain)
            else Ok(pmi(if y.count > 1 then y.count else 1, total, px, py))
  }

  /** The item `search_bi` assigns for a pair that passes the threshold. */
  function PairItem(x: Node, y: Node, v: real, total: int): (string, (real, real))
    requires total > 0
  {
    (PairKey(x, y), (v, y.count as real / total as real))
  }

  /** The assignments of model.py:206-218 in loop order: one for every finished
      pair whose PMI exceeds `limit`, or the first exception raised. */
  function PairItems(ps: seq<(Node, Node)>, one: Dict<Token, real>, total: int, limit: real,
                     pmi: (int, int, real, real) -> real): (r: Result<seq<(string, (real, real))>>)
    ensures r.Ok? <==> forall m :: 0 <= m < |ps| && ps[m].1.finished ==> PairPmi(ps[m].0, ps[m].1, one, total, pmi).Ok?
    ensures r.Err? ==> r.error == MathDomain || r.error == KeyError
    ensures r.Ok? ==> forall e :: e in r.value ==> exists m :: (0 <= m < |ps| && ps[m].1.finished
      && PairPmi(ps[m].0, ps[m].1, one, total, pmi).Ok?
      && PairPmi(ps[m].0, ps[m].1, one, total, pmi).value > limit
      && e == PairItem(ps[m].0, ps[m].1, PairPmi(ps[m].0, ps[m].1, one, total, pmi).value, total))
    ensures r.Ok? ==> forall m :: (0 <= m < |ps| && ps[m].1.finished
      && PairPmi(ps[m].0, ps[m].1, one, total, pmi).value > limit) ==>
        PairItem(ps[m].0, ps[m].1, PairPmi(ps[m].0, ps[m].1, one, total, pmi).value, total) in r.value
  {
    if |ps| == 0 then Ok([])
    else
      var front := ps[..|ps| - 1];
      assert forall m :: 0 <= m < |front| ==> front[m] == ps[m];
      var done :- PairItems(front, one, total, limit, pmi);
      var (x, y) := ps[|ps| - 1];
      if !y.finished then Ok(done)
      else
        var v :- PairPmi(x, y, one, total, pmi);
        if v > limit then Ok(done + [PairItem(x, y, v, total)]) else Ok(done)
  }

  /** The two shapes `search_bi` returns: `(False, 0)` for a root without
      children, otherwise the dict of pairs that pass the threshold. */
  datatype Bigram = NoBigram | Bigram(table: Dict<string, (real, real)>)

  /** `search_bi` (model.py:179-219). */
  function SearchBi(root: Node, limit: real, pmi: (int, int, real, real) -> real): (r: Result<Bigram>)
    ensures r == Ok(NoBigram) <==> |root.children| == 0
    ensures r.Err? ==> r.error == ZeroDivision || r.error == MathDomain || r.error == KeyError
    ensures r.Ok? && r.value.Bigram? ==> DistinctKeys(r.value.table)
  {
    var cs := root.children;
    if |cs| == 0 then Ok(NoBigram)
    else
      var one :- SearchOne(root);
      var ps := Depth2(cs);
      var items :- PairItems(ps, one.probs, PairTotal(ps), limit, pmi);
      Ok(Bigram(FromList(items)))
  }

  /** A successful `search_bi` has an entry for every finished depth-2 node
      whose PMI exceeds the limit, under that node's key. */
  lemma SearchBiCovers(root: Node, limit: real, pmi: (int, int, real, real) -> real, m: nat)
    requires SearchBi(root, limit, pmi).Ok? && SearchBi(root, limit, pmi).value.Bigram?
    requires m < |Depth2(root.children)|
    requires var ps := Depth2(root.children);
      ps[m].1.finished && PairPmi(ps[m].0, ps[m].1, SearchOne(root).value.probs, PairTotal(ps), pmi).value > limit
    ensures var ps := Depth2(root.children);
      HasKey(SearchBi(root, limit, pmi).value.table, PairKey(ps[m].0, ps[m].1))
  {
    var ps := Depth2(root.children);
    var one := SearchOne(root).value.probs;
    var total := PairTotal(ps);
    var items := PairItems(ps, one, total, limit, pmi).value;
    var it := PairItem(ps[m].0, ps[m].1, PairPmi(ps[m].0, ps[m].1, one, total, pmi).value, total);
    assert it in items;
    FromListKeys(items, it.0);
  }

  /** The dict built from the items holds, under each key, the item of a
      finished pair with that key and a PMI above the limit. */
  lemma PairItemsSound(ps: seq<(Node, Node)>, one: Dict<Token, real>, total: int, limit: real,
                       pmi: (int, int, real, real) -> real, k: string, e: (real, real)) returns (m: nat)
    requires PairItems(ps, one, total, limit, pmi).Ok?
    requires Get(FromList(PairItems(ps, one, total, limit, pmi).value), k) == Some(e)
    ensures m < |ps| && ps[m].1.finished
    ensures PairKey(ps[m].0, ps[m].1) == k
    ensures PairPmi(ps[m].0, ps[m].1, one, total, pmi) == Ok(e.0) && e.0 > limit
    ensures total > 0 && e.1 == ps[m].1.count as real / total as real
  {
    var items := PairItems(ps, one, total, limit, pmi).value;
    LastValueSpec(items, k, e);
    var j :| 0 <= j < |items| && items[j] == (k, e) && forall j' :: j < j' < |items| ==> items[j'].0 != k;
    assert items[j] in items;
    m :| 0 <= m < |ps| && ps[m].1.finished
      && PairPmi(ps[m].0, ps[m].1, one, total, pmi).Ok?
      && PairPmi(ps[m].0, ps[m].1, one, total, pmi).value > limit
      && (k, e) == PairItem(ps[m].0, ps[m].1, PairPmi(ps[m].0, ps[m].1, one, total, pmi).value, total);
  }

  /** Each entry of a successful `search_bi` comes from a finished depth-2
      node with that key, a PMI above the limit, and the node's share of the
      pair total. */
  lemma SearchBiSound(root: Node, limit: real, pmi: (int, int, real, real) -> real, k: string, e: (real, real))
    returns (m: nat)
    requires SearchBi(root, limit, pmi).Ok? && SearchBi(root, limit, pmi).value.Bigram?
    requires Get(SearchBi(root, limit, pmi).value.table, k) == Some(e)
    ensures var ps := Depth2(root.children);
      && m < |ps| && ps[m].1.finished
      && PairKey(ps[m].0, ps[m].1) == k
      && PairPmi(ps[m].0, ps[m].1, SearchOne(root).value.probs, PairTotal(ps), pmi) == Ok(e.0)
      && e.0 > limit
      && e.1 == ps[m].1.count as real / PairTotal(ps) as real
  {
    var ps := Depth2(root.children);
    var one := SearchOne(root).value.probs;
    assert SearchBi(root, limit, pmi).value.table == FromList(PairItems(ps, one, PairTotal(ps), limit, pmi).value);
    m := PairItemsSound(ps, one, PairTotal(ps), limit, pmi, k, e);
  }

  /** Whether the pair at position `i` is finished and its PMI exceeds the
      limit, so that model.py:217-218 assigns it. */
  predicate Qualifies(ps: seq<(Node, Node)>, one: Dict<Token, real>, total: int, limit: real,
                      pmi: (int, int, real, real) -> real, i: int) {
    && 0 <= i < |ps| && ps[i].1.finished
    && PairPmi(ps[i].0, ps[i].1, one, total, pmi).Ok?
    && PairPmi(ps[i].0, ps[i].1, one, total, pmi).value > limit
  }

  /** The item a qualifying pair assigns is the last one under its key when
      no later qualifying pair has the same key. */
  lemma {:induction false} PairItemsLast(ps: seq<(Node, Node)>, one: Dict<Token, real>, total: int, limit: real,
                                         pmi: (int, int, real, real) -> real, m: nat)
    requires PairItems(ps, one, total, limit, pmi).Ok?
    requires m < |ps| && ps[m].1.finished && PairPmi(ps[m].0, ps[m].1, one, total, pmi).value > limit
    requires forall m' :: m < m' && Qualifies(ps, one, total, limit, pmi, m') ==>
      PairKey(ps[m'].0, ps[m'].1) != PairKey(ps[m].0, ps[m].1)
    ensures LastValue(PairItems(ps, one, total, limit, pmi).value, PairKey(ps[m].0, ps[m].1))
      == Some((PairPmi(ps[m].0, ps[m].1, one, total, pmi).value, ps[m].1.count as real / total as real))
  {
    var front := ps[..|ps| - 1];
    assert forall i :: 0 <= i < |front| ==> front[i] == ps[i];
    var done := PairItems(front, one, total, limit, pmi).value;
    var k := PairKey(ps[m].0, ps[m].1);
    if m < |front| {
      PairItemsLast(front, one, total, limit, pmi, m);
      var items := PairItems(ps, one, total, limit, pmi).value;
      if items != done {
        var it := items[|items| - 1];
        assert items == done + [it];
        assert it.0 != k;
        assert items[..|items| - 1] == done;
      }
    }
  }

  /** A key that two pairs share holds the PMI and share of the last
      qualifying pair in loop order, because model.py:218 overwrites the
      earlier assignment. */
  lemma SearchBiValue(root: Node, limit: real, pmi: (int, int, real, real) -> real, m: nat)
    requires SearchBi(root, limit, pmi).Ok? && SearchBi(root, limit, pmi).value.Bigram?
    requires var ps, one := Depth2(root.children), SearchOne(root).value.probs;
      && m < |ps| && ps[m].1.finished && PairPmi(ps[m].0, ps[m].1, one, PairTotal(ps), pmi).value > limit
      && forall m' :: m < m' && Qualifies(ps, one, PairTotal(ps), limit, pmi, m') ==>
        PairKey(ps[m'].0, ps[m'].1) != PairKey(ps[m].0, ps[m].1)
    ensures var ps, one := Depth2(root.children), SearchOne(root).value.probs;
      Get(SearchBi(root, limit, pmi).value.table, PairKey(ps[m].0, ps[m].1))
        == Some((PairPmi(ps[m].0, ps[m].1, one, PairTotal(ps), pmi).value, ps[m].1.count as real / PairTotal(ps) as real))
  {
    var ps, one := Depth2(root.children), SearchOne(root).value.probs;
    assert SearchBi(root, limit, pmi).value.table == FromList(PairItems(ps, one, PairTotal(ps), limit, pmi).value);
    PairItemsLast(ps, one, PairTotal(ps), limit, pmi, m);
  }

  // ---------------------------------------------------------------------
  // search_left and search_right

  /** The two boundary statistics. */
  datatype Side = Left | Right

  /** Whether a depth-3 node feeds a side's statistic: finished and rotated
      for the left one (model.py:245), finished and not rotated for the right
      one (model.py:276). */
  predicate Feeds(c: Node, side: Side) {
    c.finished && c.isBack == (side == Left)
  }

  /** The counts of the children that feed `side`, in order. */
  function SideCounts(cs: seq<Node>, side: Side): seq<int> {
    if |cs| == 0 then []
    else SideCounts(cs[..|cs| - 1], side) + (if Feeds(cs[|cs| - 1], side) then [cs[|cs| - 1].count] else [])
  }

  function Sum(xs: seq<int>): int {
    if |xs| == 0 then 0 else Sum(xs[..|xs| - 1]) + xs[|xs| - 1]
  }

  /** The term `(c / total) * log2(c / total)` that the second loop of
      model.py:249-252 adds for one qualifying count. */
  function Term(c: int, total: int, log2: real -> real): real
    requires total != 0
  {
    var share := c as real / total as real;
    share * log2(share)
  }

  /** The sum of the terms of `counts`, the quantity whose negation is the
      entropy. */
  function TermSum(counts: seq<int>, total: int, log2: real -> real): real
    requires total != 0
  {
    if |counts| == 0 then 0.0
    else TermSum(counts[..|counts| - 1], total, log2) + Term(counts[|counts| - 1], total, log2)
  }

  /** The second loop of model.py:249-252 (and 278-280) over the qualifying
      counts, in order, from the accumulated `p`: each step divides by
      `total`, raising `ZeroDivisionError` when it is 0, and takes the `log`
      of the share, raising `ValueError` when the share is not positive. */
  function EntropyLoop(counts: seq<int>, total: int, log2: real -> real, p: real): Result<real>
    decreases |counts|
  {
    if |counts| == 0 then Ok(p)
    else if total == 0 then Err(ZeroDivision)
    else if counts[0] as real / total as real <= 0.0 then Err(MathDomain)
    else EntropyLoop(counts[1..], total, log2, p + Term(counts[0], total, log2))
  }

  /** The value `-p` a depth-2 node gets (model.py:237-254): the first loop
      sums the qualifying counts and the second accumulates the terms. */
  function BoundaryEntropy(counts: seq<int>, log2: real -> real): Result<real> {
    var p :- EntropyLoop(counts, Sum(counts), log2, 0.0);
    Ok(-p)
  }

  /** Some count's share of `total` is not positive, so its `log` fails. */
  predicate SomeShareNotPositive(counts: seq<int>, total: int)
    requires total != 0
  {
    exists k :: 0 <= k < |counts| && counts[k] as real / total as real <= 0.0
  }

  lemma {:induction false} TermSumCons(counts: seq<int>, total: int, log2: real -> real)
    requires |counts| > 0 && total != 0
    ensures TermSum(counts, total, log2) == Term(counts[0], total, log2) + TermSum(counts[1..], total, log2)
    decreases |counts|
  {
    if |counts| > 1 {
      var front := counts[..|counts| - 1];
      TermSumCons(front, total, log2);
      assert front[1..] == counts[1..][..|counts[1..]| - 1];
      assert front[0] == counts[0];
    } else {
      assert counts[1..] == [];
      assert counts[..0] == [];
    }
  }

  /** The loop fails at its first step on a zero total and at the first
      non-positive share otherwise; when it completes it has added the whole
      term sum to `p`. */
  lemma {:induction false} EntropyLoopSpec(counts: seq<int>, total: int, log2: real -> real, p: real)
    ensures var r := EntropyLoop(counts, total, log2, p);
      && (r.Err? <==> |counts| > 0 && (total == 0 || SomeShareNotPositive(counts, total)))
      && (r.Err? ==> r.error == (if total == 0 then ZeroDivision else MathDomain))
      && (r.Ok? ==> r.value == p + (if total == 0 then 0.0 else TermSum(counts, total, log2)))
    decreases |counts|
  {
    if |counts| > 0 && total != 0 {
      TermSumCons(counts, total, log2);
      var rest := counts[1..];
      assert forall k :: 0 <= k < |rest| ==> rest[k] == counts[k + 1];
      EntropyLoopSpec(rest, total, log2, p + Term(counts[0], total, log2));
      if SomeShareNotPositive(counts, total) {
        var k :| 0 <= k < |counts| && counts[k] as real / total as real <= 0.0;
        if k > 0 {
          assert rest[k - 1] == counts[k];
        }
      }
    }
  }

  /** No qualifying child gives 0, because the loop that divides never runs;
      otherwise a zero total raises `ZeroDivisionError`, a non-positive share
      raises `ValueError`, and the value is minus the term sum. */
  lemma BoundaryEntropySpec(counts: seq<int>, log2: real -> real)
    ensures var r := BoundaryEntropy(counts, log2);
      && (|counts| == 0 ==> r == Ok(0.0))
      && (r.Err? <==> |counts| > 0 && (Sum(counts) == 0 || SomeShareNotPositive(counts, Sum(counts))))
      && (r.Err? ==> r.error == (if Sum(counts) == 0 then ZeroDivision else MathDomain))
      && (r.Ok? && |counts| > 0 ==> Sum(counts) != 0 && r.value == -TermSum(counts, Sum(counts), log2))
  {
    EntropyLoopSpec(counts, Sum(counts), log2, 0.0);
  }

  /** The key `child.char + cha.char` of model.py:254 and 282. */
  function BoundaryKey(x: Node, y: Node): string {
    x.token + y.token
  }

  /** The assignments of the boundary loops, one per depth-2 node in loop
      order, or the first exception raised. */
  function BoundaryItems(ps: seq<(Node, Node)>, side: Side, log2: real -> real): (r: Result<seq<(string, real)>>)
    ensures r.Ok? <==> forall m :: 0 <= m < |ps| ==> BoundaryEntropy(SideCounts(ps[m].1.children, side), log2).Ok?
    ensures r.Err? ==> r.error == ZeroDivision || r.error == MathDomain
    ensures r.Ok? ==> |r.value| == |ps| && forall m :: 0 <= m < |ps| ==>
      r.value[m] == (BoundaryKey(ps[m].0, ps[m].1), BoundaryEntropy(SideCounts(ps[m].1.children, side), log2).value)
  {
    if |ps| == 0 then Ok([])
    else
      var front := ps[..|ps| - 1];
      assert forall m :: 0 <= m < |front| ==> front[m] == ps[m];
      var done :- BoundaryItems(front, side, log2);
      var (x, y) := ps[|ps| - 1];
      BoundaryEntropySpec(SideCounts(y.children, side), log2);
      var h :- BoundaryEntropy(SideCounts(y.children, side), log2);
      Ok(done + [(BoundaryKey(x, y), h)])
  }

  /** The two shapes the boundary searches return: `(False, 0)` for a root
      without children, otherwise the dict of entropies. */
  datatype Boundary = NoBoundary | Boundary(table: Dict<string, real>)

  /** `search_left` (model.py:221-255) for `Left` and `search_right`
      (model.py:257-283) for `Right`. */
  function SearchBoundary(root: Node, side: Side, log2: real -> real): (r: Result<Boundary>)
    ensures r == Ok(NoBoundary) <==> |root.children| == 0
    ensures r.Err? ==> r.error == ZeroDivision || r.error == MathDomain
  {
    var cs := root.children;
    if |cs| == 0 then Ok(NoBoundary)
    else
      var items :- BoundaryItems(Depth2(cs), side, log2);
      Ok(Boundary(FromList(items)))
  }

  /** `SideCounts` keeps the counts of exactly the children that feed the side. */
  lemma {:induction false} SideCountsFrom(cs: seq<Node>, side: Side, x: int)
    ensures x in SideCounts(cs, side) <==> exists i :: 0 <= i < |cs| && Feeds(cs[i], side) && cs[i].count == x
    ensures |SideCounts(cs, side)| == 0 <==> forall i :: 0 <= i < |cs| ==> !Feeds(cs[i], side)
  {
    if |cs| > 0 {
      var front := cs[..|cs| - 1];
      SideCountsFrom(front, side, x);
      assert forall i :: 0 <= i < |front| ==> front[i] == cs[i];
      if exists i :: 0 <= i < |cs| && Feeds(cs[i], side) && cs[i].count == x {
        var i :| 0 <= i < |cs| && Feeds(cs[i], side) && cs[i].count == x;
        if i < |front| {
          assert front[i] == cs[i];
        }
      }
    }
  }

  /** The children that feed `side` with count `x`, by position. */
  function FeedingAt(cs: seq<Node>, side: Side, x: int): set<int> {
    set i | 0 <= i < |cs| && Feeds(cs[i], side) && cs[i].count == x
  }

  /** Each count occurs in `SideCounts` once per child that feeds the side
      with it, so repeated counts are kept and none is invented. */
  lemma {:induction false} SideCountsMultiplicity(cs: seq<Node>, side: Side, x: int)
    ensures multiset(SideCounts(cs, side))[x] == |FeedingAt(cs, side, x)|
  {
    if |cs| == 0 {
      assert FeedingAt(cs, side, x) == {};
    } else {
      var front, c := cs[..|cs| - 1], cs[|cs| - 1];
      SideCountsMultiplicity(front, side, x);
      var tail := if Feeds(c, side) then [c.count] else [];
      assert multiset(SideCounts(cs, side)) == multiset(SideCounts(front, side)) + multiset(tail);
      FeedingAtSnoc(cs, side, x);
    }
  }

  /** Adding a child adds its position to `FeedingAt` exactly when it feeds
      the side with count `x`. */
  lemma FeedingAtSnoc(cs: seq<Node>, side: Side, x: int)
    requires |cs| > 0
    ensures var c := cs[|cs| - 1];
      |FeedingAt(cs, side, x)| ==
        |FeedingAt(cs[..|cs| - 1], side, x)| + (if Feeds(c, side) && c.count == x then 1 else 0)
  {
    var c := cs[|cs| - 1];
    var extra := if Feeds(c, side) && c.count == x then {|cs| - 1} else {};
    FeedingAtSplit(cs, side, x);
    assert FeedingAt(cs[..|cs| - 1], side, x) !! extra;
  }

  lemma FeedingAtSplit(cs: seq<Node>, side: Side, x: int)
    requires |cs| > 0
    ensures var c := cs[|cs| - 1];
      FeedingAt(cs, side, x) ==
        FeedingAt(cs[..|cs| - 1], side, x) + (if Feeds(c, side) && c.count == x then {|cs| - 1} else {})
  {
    var front := cs[..|cs| - 1];
    assert forall i :: 0 <= i < |front| ==> front[i] == cs[i];
  }

  lemma SumSnoc(xs: seq<int>, x: int)
    ensures Sum(xs + [x]) == Sum(xs) + x
  {
    assert (xs + [x])[..|xs|] == xs;
  }

  /** The left and right statistics split the finished children between them. */
  lemma {:induction false} SideCountsPartition(cs: seq<Node>)
    ensures Sum(SideCounts(cs, Left)) + Sum(SideCounts(cs, Right)) == FinishedTotal(cs)
  {
    if |cs| > 0 {
      var front := cs[..|cs| - 1];
      var c := cs[|cs| - 1];
      SideCountsPartition(front);
      var l := SideCounts(front, Left);
      var r := SideCounts(front, Right);
      SumSnoc(l, c.count);
      SumSnoc(r, c.count);
      if c.finished && c.isBack {
        assert SideCounts(cs, Left) == l + [c.count] && SideCounts(cs, Right) == r + [];
        assert r + [] == r;
      } else if c.finished {
        assert SideCounts(cs, Left) == l + [] && SideCounts(cs, Right) == r + [c.count];
        assert l + [] == l;
      } else {
        assert SideCounts(cs, Left) == l + [] && SideCounts(cs, Right) == r + [];
        assert l + [] == l && r + [] == r;
      }
    }
  }

  /** Counted children contribute positive counts, so the sum is positive too. */
  lemma {:induction false} SideCountsPositive(cs: seq<Node>, side: Side)
    requires forall i :: 0 <= i < |cs| ==> Weighted(cs[i])
    ensures forall k :: 0 <= k < |SideCounts(cs, side)| ==> SideCounts(cs, side)[k] >= 1
    ensures |SideCounts(cs, side)| > 0 ==> Sum(SideCounts(cs, side)) >= 1
  {
    if |cs| > 0 {
      var front := cs[..|cs| - 1];
      assert forall i :: 0 <= i < |front| ==> front[i] == cs[i];
      SideCountsPositive(front, side);
      var f := SideCounts(front, side);
      if Feeds(cs[|cs| - 1], side) {
        assert Weighted(cs[|cs| - 1]);
        SumSnoc(f, cs[|cs| - 1].count);
        assert SideCounts(cs, side) == f + [cs[|cs| - 1].count];
      } else {
        assert SideCounts(cs, side) == f + [];
        assert f + [] == f;
      }
    }
  }

  /** On a valid trie the boundary statistics raise no exception. */
  lemma ValidBoundaryOk(root: Node, side: Side, log2: real -> real)
    requires Valid(root)
    ensures SearchBoundary(root, side, log2).Ok?
  {
    var cs := root.children;
    var ps := Depth2(cs);
    forall m | 0 <= m < |ps|
      ensures BoundaryEntropy(SideCounts(ps[m].1.children, side), log2).Ok?
    {
      assert ps[m] in ps;
      Depth2Visits(cs, ps[m]);
      var i, j :| 0 <= i < |cs| && 0 <= j < |cs[i].children| && ps[m] == (cs[i], cs[i].children[j]);
      assert ChildrenWeighted(cs[i]);
      assert Weighted(cs[i].children[j]);
      var y := ps[m].1;
      assert ChildrenWeighted(y);
      SideCountsPositive(y.children, side);
      var counts := SideCounts(y.children, side);
      BoundaryEntropySpec(counts, log2);
      if |counts| > 0 {
        forall k | 0 <= k < |counts|
          ensures counts[k] as real / Sum(counts) as real > 0.0
        {
          SharePositive(counts[k], Sum(counts));
        }
      }
    }
  }

  lemma SharePositive(a: int, t: int)
    requires a >= 1 && t >= 1
    ensures a as real / t as real > 0.0
  {
  }

  /** Every depth-2 node has an entry in a successful boundary table, under
      its key. */
  lemma SearchBoundaryCovers(root: Node, side: Side, log2: real -> real, i: nat, j: nat)
    requires SearchBoundary(root, side, log2).Ok? && SearchBoundary(root, side, log2).value.Boundary?
    requires i < |root.children| && j < |root.children[i].children|
    ensures HasKey(SearchBoundary(root, side, log2).value.table,
                   BoundaryKey(root.children[i], root.children[i].children[j]))
  {
    var cs := root.children;
    var ps := Depth2(cs);
    var items := BoundaryItems(ps, side, log2).value;
    Depth2Visits(cs, (cs[i], cs[i].children[j]));
    var m :| 0 <= m < |ps| && ps[m] == (cs[i], cs[i].children[j]);
    assert items[m].0 == BoundaryKey(cs[i], cs[i].children[j]);
    FromListKeys(items, items[m].0);
  }

  /** The entry under a key is the statistic of the last depth-2 node in loop
      order with that key: nodes whose tokens concatenate to the same string
      overwrite each other. */
  lemma SearchBoundaryValue(root: Node, side: Side, log2: real -> real, m: nat)
    requires SearchBoundary(root, side, log2).Ok? && SearchBoundary(root, side, log2).value.Boundary?
    requires var ps := Depth2(root.children);
      m < |ps| && forall m' :: m < m' < |ps| ==> BoundaryKey(ps[m'].0, ps[m'].1) != BoundaryKey(ps[m].0, ps[m].1)
    ensures var ps := Depth2(root.children);
      Get(SearchBoundary(root, side, log2).value.table, BoundaryKey(ps[m].0, ps[m].1))
        == Some(BoundaryEntropy(SideCounts(ps[m].1.children, side), log2).value)
  {
    var ps := Depth2(root.children);
    var items := BoundaryItems(ps, side, log2).value;
    var k := BoundaryKey(ps[m].0, ps[m].1);
    assert forall m' :: m < m' < |items| ==> items[m'].0 != k;
    LastValueSpec(items, k, items[m].1);
  }
}

/** `TrieNode.find_word` (model.py:285-337): score every pair that passed the
    PMI filter, sort the pairs by descending score, then accept them greedily,
    skipping a pair that overlaps one already accepted, until the quota runs
    out. */
module Rank {
  import opened Results
  import opened PyDict
  import opened Text
  import opened Trie
  import opened Stats

  /** A pair key such as `"a_b"` with its score. */
  type Candidate = (string, real)

  // ---------------------------------------------------------------------
  // Scoring

  function Min(a: real, b: real): real {
    if b < a then b else a
  }

  /** The score `(PMI + min(left, right)) * probability` of model.py:296. */
  function Score(values: (real, real), l: real, r: real): real {
    (values.0 + Min(l, r)) * values.1
  }

  /** The assignments of the scoring loop (model.py:293-296) in the order of
      `bi.items()`, or the `KeyError` of the first pair whose joined key is
      missing from the left or the right table. */
  function Scored(bi: Dict<string, (real, real)>, left: Dict<string, real>, right: Dict<string, real>)
    : (r: Result<seq<Candidate>>)
    ensures r.Ok? <==> forall m :: 0 <= m < |bi| ==>
      HasKey(left, Squeeze(bi[m].0, '_')) && HasKey(right, Squeeze(bi[m].0, '_'))
    ensures r.Err? ==> r.error == KeyError
    ensures r.Ok? ==> |r.value| == |bi| && forall m :: 0 <= m < |bi| ==>
      var d := Squeeze(bi[m].0, '_');
      r.value[m] == (bi[m].0, Score(bi[m].1, Get(left, d).value, Get(right, d).value))
  {
    if |bi| == 0 then Ok([])
    else
      var front := bi[..|bi| - 1];
      assert forall m :: 0 <= m < |front| ==> front[m] == bi[m];
      var done :- Scored(front, left, right);
      var (key, values) := bi[|bi| - 1];
      var d := Squeeze(key, '_');
      match (Get(left, d), Get(right, d))
      case (Some(l), Some(r)) => Ok(done + [(key, Score(values, l, r))])
      case _ => Err(KeyError)
  }

  /** The scored dict has the same keys, in the same order, as the pair table,
      so assigning its items one after another rebuilds the list itself. */
  lemma ScoredDict(bi: Dict<string, (real, real)>, left: Dict<string, real>, right: Dict<string, real>)
    requires DistinctKeys(bi) && Scored(bi, left, right).Ok?
    ensures FromList(Scored(bi, left, right).value) == Scored(bi, left, right).value
    ensures forall k :: HasKey(bi, k) <==> HasKey(Scored(bi, left, right).value, k)
  {
    var s := Scored(bi, left, right).value;
    assert forall m :: 0 <= m < |s| ==> s[m].0 == bi[m].0;
    SameKeys(bi, s);
    FromListDistinct(s);
  }

  // ---------------------------------------------------------------------
  // Sorting

  /** Scores never increase along `s`. */
  predicate Descending(s: seq<Candidate>) {
    forall i, j :: 0 <= i < j < |s| ==> s[i].1 >= s[j].1
  }

  /** The candidates of `s` with score `v`, in order. */
  function WithScore(s: seq<Candidate>, v: real): seq<Candidate> {
    if |s| == 0 then [] else (if s[0].1 == v then [s[0]] else []) + WithScore(s[1..], v)
  }

  /** Puts `c` after the candidates that score strictly higher and before the rest. */
  function InsertDesc(c: Candidate, s: seq<Candidate>): (r: seq<Candidate>)
    ensures multiset(r) == multiset(s) + multiset{c}
    ensures forall x :: x in r <==> x == c || x in s
    ensures Descending(s) ==> Descending(r)
  {
    if |s| == 0 || s[0].1 <= c.1 then [c] + s
    else
      var rest := InsertDesc(c, s[1..]);
      assert s == [s[0]] + s[1..];
      InsertDescHead(s[0], rest, c, s);
      [s[0]] + rest
  }

  lemma InsertDescHead(h: Candidate, rest: seq<Candidate>, c: Candidate, s: seq<Candidate>)
    requires |s| > 0 && h == s[0] && c.1 < h.1
    requires forall x :: x in rest <==> x == c || x in s[1..]
    requires Descending(s) ==> Descending(rest)
    ensures Descending(s) ==> Descending([h] + rest)
  {
    if Descending(s) {
      forall k | 0 <= k < |rest|
        ensures h.1 >= rest[k].1
      {
        assert rest[k] in rest;
        if rest[k] != c {
          var j :| 0 <= j < |s[1..]| && s[1..][j] == rest[k];
          assert s[j + 1] == rest[k];
        }
      }
    }
  }

  /** `sorted(items, key=lambda x: x[1], reverse=True)` (model.py:300). */
  function SortDesc(s: seq<Candidate>): (r: seq<Candidate>)
    ensures multiset(r) == multiset(s)
    ensures Descending(r)
  {
    if |s| == 0 then []
    else
      assert s == [s[0]] + s[1..];
      InsertDesc(s[0], SortDesc(s[1..]))
  }

  lemma WithScoreCons(x: Candidate, s: seq<Candidate>, v: real)
    ensures WithScore([x] + s, v) == (if x.1 == v then [x] else []) + WithScore(s, v)
  {
    assert ([x] + s)[1..] == s;
  }

  lemma {:induction false} WithScoreInsert(c: Candidate, s: seq<Candidate>, v: real)
    ensures WithScore(InsertDesc(c, s), v) == (if c.1 == v then [c] else []) + WithScore(s, v)
  {
    if |s| == 0 || s[0].1 <= c.1 {
      WithScoreCons(c, s, v);
    } else {
      var rest := InsertDesc(c, s[1..]);
      WithScoreInsert(c, s[1..], v);
      WithScoreCons(s[0], rest, v);
      WithScoreCons(s[0], s[1..], v);
      assert [s[0]] + s[1..] == s;
    }
  }

  /** The sort is stable: candidates with equal scores keep their input order. */
  lemma {:induction false} SortDescStable(s: seq<Candidate>, v: real)
    ensures WithScore(SortDesc(s), v) == WithScore(s, v)
  {
    if |s| > 0 {
      SortDescStable(s[1..], v);
      WithScoreInsert(s[0], SortDesc(s[1..]), v);
    }
  }

  // ---------------------------------------------------------------------
  // Greedy selection

  /** The overlap test of model.py:315-323: the new pair's last half is the
      accepted pair's first half, or its first half is the accepted pair's
      last half, or the accepted word occurs inside the new word. */
  predicate Clashes(now: string, pre: string) {
    var a := Split(now, '_');
    var b := Split(pre, '_');
    a[|a| - 1] == b[0] || a[0] == b[|b| - 1] || IsSubstring(Squeeze(pre, '_'), Squeeze(now, '_'))
  }

  /** The word a pair stands for, `"".join(key.split('_'))`, with its score. */
  function Word(c: Candidate): (string, real) {
    (Squeeze(c.0, '_'), c.1)
  }

  /** Two keys that join to the same word always clash, so no word is
      accepted twice. */
  lemma SameWordClashes(now: string, pre: string)
    requires Squeeze(now, '_') == Squeeze(pre, '_')
    ensures Clashes(now, pre)
  {
    SubstringOfSelf(Squeeze(now, '_'));
  }

  function Quota(n: int): nat {
    if n < 1 then 1 else n
  }

  /** The inner loop of model.py:309-327: whether `now` clashes with none of
      the accepted pairs, and otherwise the first one it clashes with. */
  method Admits(now: string, accepted: seq<Candidate>) returns (flag: bool, t: nat)
    ensures flag <==> forall u :: 0 <= u < |accepted| ==> !Clashes(now, accepted[u].0)
    ensures !flag ==> t < |accepted| && Clashes(now, accepted[t].0)
  {
    flag, t := true, 0;
    while t < |accepted|
      invariant 0 <= t <= |accepted|
      invariant forall u :: 0 <= u < t ==> !Clashes(now, accepted[u].0)
    {
      if Clashes(now, accepted[t].0) {
        flag := false;
        return;
      }
      t := t + 1;
    }
  }

  /** `words` is `add_word` for the accepted pairs: each one's word with its
      score, in acceptance order, no word twice. */
  predicate WordsOf(words: Dict<string, real>, accepted: seq<Candidate>) {
    && |words| == |accepted|
    && (forall t :: 0 <= t < |accepted| ==> words[t] == Word(accepted[t]))
    && DistinctKeys(words)
  }

  /** The word of an admissible pair is not yet a key of `add_word`, so the
      assignment appends it. */
  lemma NewWord(d: Candidate, accepted: seq<Candidate>, words: Dict<string, real>)
    requires forall u :: 0 <= u < |accepted| ==> !Clashes(d.0, accepted[u].0)
    requires WordsOf(words, accepted)
    ensures Put(words, Squeeze(d.0, '_'), d.1) == words + [Word(d)]
    ensures WordsOf(words + [Word(d)], accepted + [d])
  {
    forall u | 0 <= u < |words|
      ensures words[u].0 != Squeeze(d.0, '_')
    {
      if words[u].0 == Squeeze(d.0, '_') {
        SameWordClashes(d.0, accepted[u].0);
      }
    }
    assert !HasKey(words, Squeeze(d.0, '_'));
  }

  /** What the accept loop has established after examining the first
      `scanned` candidates, for an overlap test `clash`: the accepted pairs
      are taken from those positions, in order, none clashes with an earlier
      one, and every candidate passed over clashes with a pair accepted
      before it. */
  predicate Scanned(clash: (string, string) -> bool, ranked: seq<Candidate>, accepted: seq<Candidate>,
                    pos: seq<nat>, scanned: nat) {
    && scanned <= |ranked| && |pos| == |accepted|
    && (forall t :: 0 <= t < |pos| ==> pos[t] < scanned && ranked[pos[t]] == accepted[t])
    && (forall t, u :: 0 <= t < u < |pos| ==> pos[t] < pos[u])
    && (forall t, u :: 0 <= t < u < |accepted| ==> !clash(accepted[u].0, accepted[t].0))
    && (forall j :: 0 <= j < scanned && j !in pos ==>
          exists t :: 0 <= t < |pos| && pos[t] < j && clash(ranked[j].0, accepted[t].0))
  }

  lemma AcceptStep(clash: (string, string) -> bool, ranked: seq<Candidate>, accepted: seq<Candidate>,
                   pos: seq<nat>, scanned: nat)
    requires Scanned(clash, ranked, accepted, pos, scanned) && scanned < |ranked|
    requires forall u :: 0 <= u < |accepted| ==> !clash(ranked[scanned].0, accepted[u].0)
    ensures Scanned(clash, ranked, accepted + [ranked[scanned]], pos + [scanned], scanned + 1)
  {
    var accepted', pos' := accepted + [ranked[scanned]], pos + [scanned];
    forall t | 0 <= t < |pos'|
      ensures pos'[t] < scanned + 1 && ranked[pos'[t]] == accepted'[t]
    {
      if t < |pos| {
        assert pos'[t] == pos[t] && accepted'[t] == accepted[t];
      }
    }
    forall t, u | 0 <= t < u < |pos'|
      ensures pos'[t] < pos'[u] && !clash(accepted'[u].0, accepted'[t].0)
    {
      assert pos'[t] == pos[t] && accepted'[t] == accepted[t];
    }
    forall j | 0 <= j < scanned + 1 && j !in pos'
      ensures exists t :: 0 <= t < |pos'| && pos'[t] < j && clash(ranked[j].0, accepted'[t].0)
    {
      assert j !in pos;
      var t :| 0 <= t < |pos| && pos[t] < j && clash(ranked[j].0, accepted[t].0);
      assert pos'[t] == pos[t] && accepted'[t] == accepted[t];
    }
  }

  lemma RejectStep(clash: (string, string) -> bool, ranked: seq<Candidate>, accepted: seq<Candidate>,
                   pos: seq<nat>, scanned: nat, t: nat)
    requires Scanned(clash, ranked, accepted, pos, scanned) && scanned < |ranked|
    requires t < |accepted| && clash(ranked[scanned].0, accepted[t].0)
    ensures Scanned(clash, ranked, accepted, pos, scanned + 1)
  {
    assert pos[t] < scanned;
  }

  /** The accept loop of model.py:303-335 over the ranked candidates.
      `accepted` are the pairs appended to `dict_list`, `words` is
      `add_word`, `pos` gives where each accepted pair sits in `ranked`, and
      `scanned` is how many candidates the loop examined before it ended. */
  method Select(ranked: seq<Candidate>, n: int)
    returns (accepted: seq<Candidate>, words: Dict<string, real>, pos: seq<nat>, scanned: nat)
    ensures Scanned(Clashes, ranked, accepted, pos, scanned)
    ensures |accepted| <= Quota(n)
    ensures scanned < |ranked| ==> |accepted| == Quota(n)
    ensures |ranked| > 0 ==> |accepted| >= 1 && accepted[0] == ranked[0]
    ensures WordsOf(words, accepted)
  {
    accepted, words, pos, scanned := [], [], [], 0;
    var quota := n;
    while scanned < |ranked|
      invariant Scanned(Clashes, ranked, accepted, pos, scanned)
      invariant quota == n - |accepted| && |accepted| < Quota(n)
      invariant scanned > 0 ==> |accepted| >= 1 && accepted[0] == ranked[0]
      invariant WordsOf(words, accepted)
    {
      var d := ranked[scanned];
      var flag, t := Admits(d.0, accepted);
      if flag {
        NewWord(d, accepted, words);
        AcceptStep(Clashes, ranked, accepted, pos, scanned);
        words := Put(words, Squeeze(d.0, '_'), d.1);
        accepted, pos, scanned := accepted + [d], pos + [scanned], scanned + 1;
        quota := quota - 1;
        if quota <= 0 {
          break;
        }
      } else {
        RejectStep(Clashes, ranked, accepted, pos, scanned, t);
        scanned := scanned + 1;
      }
    }
  }

  // ---------------------------------------------------------------------
  // find_word

  /** What `find_word` returns: the ranked `(key, score)` list and the
      `add_word` dict of accepted words. */
  datatype Found = Found(ranked: seq<Candidate>, words: Dict<string, real>)

  /** `find_word(N)` (model.py:285-337), with `PMI_limit`, the PMI formula and
      `log2` as parameters. `accepted` is the final `dict_list`, `pos` gives
      where each accepted pair sits in `ranked`, and `scanned` is how many
      ranked pairs the accept loop examined. For a childless root `search_bi`
      returns the tuple `(False, 0)`, and calling `.items()` on it
      (model.py:293) raises `AttributeError`; the other errors come from the
      searches (model.py:288-290) and the table lookups (model.py:296), the
      first failing one in evaluation order. */
  method FindWord(root: Node, n: int, limit: real, pmi: (int, int, real, real) -> real,
                  log2: real -> real)
    returns (r: Result<Found>, accepted: seq<Candidate>, pos: seq<nat>, scanned: nat)
    ensures (r.Err? && r.error == AttributeError) <==> |root.children| == 0
    ensures r.Ok? ==> Descending(r.value.ranked)
    ensures r.Ok? && scanned < |r.value.ranked| ==> |accepted| == Quota(n)
    ensures r.Ok? && |r.value.ranked| > 0 ==> |accepted| >= 1 && accepted[0] == r.value.ranked[0]
    ensures r.Ok? ==> WordsOf(r.value.words, accepted) && |accepted| <= Quota(n)
    ensures r.Ok? ==> SearchBi(root, limit, pmi).Ok? && SearchBi(root, limit, pmi).value.Bigram?
    ensures
      var bi, left, right := SearchBi(root, limit, pmi), SearchBoundary(root, Left, log2), SearchBoundary(root, Right, log2);
      r.Ok? <==>
        && |root.children| > 0 && bi.Ok? && left.Ok? && right.Ok?
        && bi.value.Bigram? && left.value.Boundary? && right.value.Boundary?
        && Scored(bi.value.table, left.value.table, right.value.table).Ok?
    ensures
      var bi, left, right := SearchBi(root, limit, pmi), SearchBoundary(root, Left, log2), SearchBoundary(root, Right, log2);
      r.Err? ==>
        r.error == if bi.Err? then bi.error
                   else if left.Err? then left.error
                   else if right.Err? then right.error
                   else if |root.children| == 0 then AttributeError
                   else KeyError
    ensures r.Ok? ==> |r.value.ranked| == |SearchBi(root, limit, pmi).value.table|
    ensures r.Ok? ==> forall k :: HasKey(SearchBi(root, limit, pmi).value.table, k) <==> HasKey(r.value.ranked, k)
    ensures r.Ok? ==>
      var left := SearchBoundary(root, Left, log2);
      var right := SearchBoundary(root, Right, log2);
      && left.Ok? && left.value.Boundary? && right.Ok? && right.value.Boundary?
      && var s := Scored(SearchBi(root, limit, pmi).value.table, left.value.table, right.value.table);
      && s.Ok?
      && multiset(r.value.ranked) == multiset(s.value)
      && forall v :: WithScore(r.value.ranked, v) == WithScore(s.value, v)
    ensures r.Ok? ==> Scanned(Clashes, r.value.ranked, accepted, pos, scanned)
  {
    accepted, pos, scanned := [], [], 0;
    var bi :- SearchBi(root, limit, pmi);
    var left :- SearchBoundary(root, Left, log2);
    var right :- SearchBoundary(root, Right, log2);
    if bi.NoBigram? {
      return Err(AttributeError), accepted, pos, scanned;
    }
    var scored :- Scored(bi.table, left.table, right.table);
    var items := FromList(scored);
    ScoredDict(bi.table, left.table, right.table);
    var ranked := SortDesc(items);
    SortedKeys(items, ranked);
    forall v
      ensures WithScore(ranked, v) == WithScore(scored, v)
    {
      SortDescStable(items, v);
    }
    var words;
    accepted, words, pos, scanned := Select(ranked, n);
    return Ok(Found(ranked, words)), accepted, pos, scanned;
  }

  /** Sorting keeps the length and the set of keys. */
  lemma SortedKeys(items: seq<Candidate>, ranked: seq<Candidate>)
    requires multiset(ranked) == multiset(items)
    ensures |ranked| == |items|
    ensures forall k :: HasKey(items, k) <==> HasKey(ranked, k)
  {
    assert |multiset(ranked)| == |multiset(items)|;
    forall k
      ensures HasKey(items, k) ==> HasKey(ranked, k)
      ensures HasKey(ranked, k) ==> HasKey(items, k)
    {
      if j :| 0 <= j < |items| && items[j].0 == k {
        assert items[j] in multiset(items);
        assert items[j] in ranked;
      }
      if j :| 0 <= j < |ranked| && ranked[j].0 == k {
        assert ranked[j] in multiset(ranked);
        assert ranked[j] in items;
      }
    }
  }
}

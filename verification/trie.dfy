/** The co-occurrence trie of model.py: its nodes, the seeding done by the
    constructor and the insertion `TrieNode.add`, with the structural
    invariants insertion keeps. */
module Trie {
  import opened Results
  import opened PyDict
  import Numerals

  type Token = string

  /** A trie node (`Node`, model.py:22-37). `finished` is `word_finish`,
      `isBack` marks the end of a rotated path `b -> c -> a`. */
  datatype Node = Node(token: Token, finished: bool, count: int, children: seq<Node>, isBack: bool)

  /** `Node(char)`: a node as created on an insertion path. */
  function Fresh(t: Token): Node {
    Node(t, false, 0, [], false)
  }

  /** A node's own fields, with its subtree dropped. */
  function Label(n: Node): Node {
    n.(children := [])
  }

  /** What the child scans compare: the token and the rotated flag. */
  function Key(n: Node): (Token, bool) {
    (n.token, n.isBack)
  }

  /** Whether the scan for token `t` stops at child `c`. The last step of the
      rotated path only stops at children already marked `isBack`
      (model.py:134-138); every other step stops at any equal token
      (model.py:81-89, 127-131). */
  predicate Accepts(c: Node, t: Token, backOnly: bool) {
    c.token == t && (!backOnly || c.isBack)
  }

  /** Where the linear scan over `cs` ends: the first accepted child, or
      `|cs|` when there is none, which is where the new child is appended. */
  function Slot(cs: seq<Node>, t: Token, backOnly: bool): (i: nat)
    ensures i <= |cs|
    ensures i < |cs| ==> Accepts(cs[i], t, backOnly)
    ensures forall j :: 0 <= j < i ==> !Accepts(cs[j], t, backOnly)
  {
    if |cs| == 0 then 0
    else if Accepts(cs[0], t, backOnly) then 0
    else 1 + Slot(cs[1..], t, backOnly)
  }

  /** One pass of `TrieNode.add` along `w` below `n`: the forward pass
      (model.py:77-107) when `back` is false, the rotated pass
      (model.py:122-152) when it is true. Each step follows the scanned
      child or appends a fresh one; the last step counts the sequence, marks
      the node finished and, on the rotated pass, marks it `isBack`. */
  function Insert(n: Node, w: seq<Token>, back: bool): (r: Node)
    requires |w| > 0
    ensures Label(r) == Label(n)
    ensures |n.children| <= |r.children| <= |n.children| + 1
    ensures forall k :: 0 <= k < |n.children| ==> Key(r.children[k]) == Key(n.children[k])
    decreases |w|
  {
    var cs := n.children;
    var i := Slot(cs, w[0], back && |w| == 1);
    var c := if i < |cs| then cs[i] else Fresh(w[0]);
    var c' := if |w| == 1 then c.(count := c.count + 1, finished := true, isBack := c.isBack || back)
              else Insert(c, w[1..], back);
    n.(children := if i < |cs| then cs[i := c'] else cs + [c'])
  }

  /** The rotation `b, c, a` of a trigram `a, b, c` (model.py:117-119). */
  function Rotate(w: seq<Token>): seq<Token>
    requires |w| == 3
  {
    [w[1], w[2], w[0]]
  }

  /** `TrieNode.add(word)` (model.py:67-152): the forward pass for any
      non-empty word, then the rotated pass when the word has three tokens. */
  function Add(root: Node, word: seq<Token>): Node {
    var forward := if |word| == 0 then root else Insert(root, word, false);
    if |word| == 3 then Insert(forward, Rotate(word), true) else forward
  }

  /** `TrieNode(node, data)` (model.py:45-65): a root whose children are the
      items of `data`, in order, each finished with count `int(value)`. */
  function Seed(rootToken: Token, data: Dict<Token, string>): (root: Node)
    requires forall i :: 0 <= i < |data| ==> Numerals.IsInteger(data[i].1)
  {
    var kids := seq(|data|, i requires 0 <= i < |data| =>
      Node(data[i].0, true, Numerals.ParseInt(data[i].1), [], false));
    Node(rootToken, false, 0, kids, false)
  }

  /** The trie after adding `words` one after another. */
  function Build(root: Node, words: seq<seq<Token>>): Node {
    if |words| == 0 then root
    else Add(Build(root, words[..|words| - 1]), words[|words| - 1])
  }

  // ---------------------------------------------------------------------
  // Positions in the tree

  /** The node at child-index path `p`, if there is one. */
  function At(n: Node, p: seq<nat>): Option<Node>
    decreases |p|
  {
    if |p| == 0 then Some(n)
    else if p[0] < |n.children| then At(n.children[p[0]], p[1..])
    else None
  }

  /** The child-index path a pass along `w` takes; an index equal to the
      number of children stands for a child the pass would append. */
  function PathOf(n: Node, w: seq<Token>, back: bool): (p: seq<nat>)
    requires |w| > 0
    ensures |p| == |w|
    decreases |w|
  {
    var cs := n.children;
    var i := Slot(cs, w[0], back && |w| == 1);
    if |w| == 1 then [i]
    else [i] + PathOf(if i < |cs| then cs[i] else Fresh(w[0]), w[1..], back)
  }

  /** The node a pass along `w` would count, if it exists already. */
  function Lookup(n: Node, w: seq<Token>, back: bool): Option<Node>
    requires |w| > 0
  {
    At(n, PathOf(n, w, back))
  }

  /** The count a pass along `w` would increment; 0 for a node not yet there. */
  function CountAt(n: Node, w: seq<Token>, back: bool): int
    requires |w| > 0
  {
    var t := Lookup(n, w, back);
    if t.Some? then t.value.count else 0
  }

  /** Whether the node a pass along `w` would count is already marked `isBack`. */
  predicate BackAt(n: Node, w: seq<Token>, back: bool)
    requires |w| > 0
  {
    var t := Lookup(n, w, back);
    t.Some? && t.value.isBack
  }

  /** Below the node itself, positions depend only on the children. */
  lemma AtBelow(x: Node, y: Node, q: seq<nat>)
    requires x.children == y.children && |q| > 0
    ensures At(x, q) == At(y, q)
  {
  }

  lemma PathBelow(x: Node, y: Node, w: seq<Token>, back: bool)
    requires x.children == y.children && |w| > 0
    ensures PathOf(x, w, back) == PathOf(y, w, back)
  {
  }

  /** A fresh node has nothing below it. */
  lemma FreshLookup(t: Token, w: seq<Token>, back: bool)
    requires |w| > 0
    ensures Lookup(Fresh(t), w, back).None?
  {
  }

  /** Following the first step of a pass: the lookup continues in the scanned child. */
  lemma LookupStep(n: Node, w: seq<Token>, back: bool)
    requires |w| > 1
    ensures var cs := n.children;
      var i := Slot(cs, w[0], false);
      Lookup(n, w, back) == (if i < |cs| then Lookup(cs[i], w[1..], back) else None)
  {
  }

  // ---------------------------------------------------------------------
  // What one pass changes

  /** The scan of a pass stops at the same child before and after the pass. */
  lemma InsertSlot(n: Node, w: seq<Token>, back: bool)
    requires |w| > 0
    ensures var mode := back && |w| == 1;
      var i := Slot(n.children, w[0], mode);
      var r := Insert(n, w, back);
      && i < |r.children|
      && Slot(r.children, w[0], mode) == i
      && r.children[i] == (
           var c := if i < |n.children| then n.children[i] else Fresh(w[0]);
           if |w| == 1 then c.(count := c.count + 1, finished := true, isBack := c.isBack || back)
           else Insert(c, w[1..], back))
  {
    var cs := n.children;
    var mode := back && |w| == 1;
    var i := Slot(cs, w[0], mode);
    var r := Insert(n, w, back);
    assert Accepts(r.children[i], w[0], mode);
    assert forall j :: 0 <= j < i ==> r.children[j] == cs[j];
    SlotFirst(r.children, w[0], mode, i);
  }

  /** The scan ends at the first accepted child. */
  lemma SlotFirst(cs: seq<Node>, t: Token, backOnly: bool, i: nat)
    requires i < |cs| && Accepts(cs[i], t, backOnly)
    requires forall j :: 0 <= j < i ==> !Accepts(cs[j], t, backOnly)
    ensures Slot(cs, t, backOnly) == i
  {
  }

  /** A pass lands on the node its path names, counts it once more, marks it
      finished, and marks it `isBack` exactly when it is the rotated pass or
      the node was marked already; the path itself is the same afterwards. */
  lemma {:induction false} InsertLands(n: Node, w: seq<Token>, back: bool)
    requires |w| > 0
    ensures PathOf(Insert(n, w, back), w, back) == PathOf(n, w, back)
    ensures var t := Lookup(Insert(n, w, back), w, back);
      && t.Some?
      && t.value.token == w[|w| - 1]
      && t.value.finished
      && t.value.count == CountAt(n, w, back) + 1
      && t.value.isBack == (back || BackAt(n, w, back))
    decreases |w|, 1
  {
    if |w| == 1 {
      InsertLandsLast(n, w, back);
    } else {
      InsertLandsStep(n, w, back);
    }
  }

  lemma {:induction false} InsertLandsStep(n: Node, w: seq<Token>, back: bool)
    requires |w| > 1
    ensures PathOf(Insert(n, w, back), w, back) == PathOf(n, w, back)
    ensures var t := Lookup(Insert(n, w, back), w, back);
      && t.Some?
      && t.value.token == w[|w| - 1]
      && t.value.finished
      && t.value.count == CountAt(n, w, back) + 1
      && t.value.isBack == (back || BackAt(n, w, back))
    decreases |w|, 0
  {
    InsertSlot(n, w, back);
    var cs := n.children;
    var i := Slot(cs, w[0], false);
    var c := if i < |cs| then cs[i] else Fresh(w[0]);
    var r := Insert(n, w, back);
    InsertLands(c, w[1..], back);
    LookupStep(r, w, back);
    LookupStep(n, w, back);
    assert PathOf(r, w, back) == [i] + PathOf(r.children[i], w[1..], back);
    if i == |cs| {
      FreshLookup(w[0], w[1..], back);
    }
  }

  lemma InsertLandsLast(n: Node, w: seq<Token>, back: bool)
    requires |w| == 1
    ensures PathOf(Insert(n, w, back), w, back) == PathOf(n, w, back)
    ensures var t := Lookup(Insert(n, w, back), w, back);
      && t.Some?
      && t.value.token == w[0]
      && t.value.finished
      && t.value.count == CountAt(n, w, back) + 1
      && t.value.isBack == (back || BackAt(n, w, back))
  {
    InsertSlot(n, w, back);
    var cs := n.children;
    var i := Slot(cs, w[0], back);
    var r := Insert(n, w, back);
    assert PathOf(r, w, back) == [i] == PathOf(n, w, back);
    assert [i][1..] == [];
    assert At(r, [i]) == At(r.children[i], []);
    assert i < |cs| ==> At(n, [i]) == At(cs[i], []);
  }

  /** Every node that existed off the counted path keeps its token, count and
      flags. */
  lemma {:induction false} InsertFrame(n: Node, w: seq<Token>, back: bool, p: seq<nat>)
    requires |w| > 0
    requires At(n, p).Some?
    requires p != PathOf(n, w, back)
    ensures At(Insert(n, w, back), p).Some?
    ensures Label(At(Insert(n, w, back), p).value) == Label(At(n, p).value)
    decreases |w|
  {
    var cs := n.children;
    var i := Slot(cs, w[0], back && |w| == 1);
    var r := Insert(n, w, back);
    if |p| > 0 && p[0] == i {
      var c := cs[i];
      if |w| == 1 {
        AtBelow(r.children[i], c, p[1..]);
      } else {
        InsertFrame(c, w[1..], back, p[1..]);
      }
    }
  }

  /** Every node a pass creates lies on its path; all but the counted one
      are fresh: count 0, not finished, not `isBack`. */
  lemma {:induction false} InsertNew(n: Node, w: seq<Token>, back: bool, p: seq<nat>)
    requires |w| > 0
    requires At(n, p).None? && At(Insert(n, w, back), p).Some?
    ensures 0 < |p| <= |w| && p == PathOf(n, w, back)[..|p|]
    ensures |p| < |w| ==> Label(At(Insert(n, w, back), p).value) == Fresh(w[|p| - 1])
    decreases |w|, 1
  {
    if |w| == 1 {
      InsertNewLast(n, w, back, p);
    } else {
      InsertNewStep(n, w, back, p);
    }
  }

  lemma InsertNewLast(n: Node, w: seq<Token>, back: bool, p: seq<nat>)
    requires |w| == 1
    requires At(n, p).None? && At(Insert(n, w, back), p).Some?
    ensures p == PathOf(n, w, back)
  {
    var i := Slot(n.children, w[0], back);
    assert p[0] == i;
    LastStepKeepsPaths(n, w, back, p);
    InsertSlot(n, w, back);
    assert |p| == 1;
  }

  lemma {:induction false} InsertNewStep(n: Node, w: seq<Token>, back: bool, p: seq<nat>)
    requires |w| > 1
    requires At(n, p).None? && At(Insert(n, w, back), p).Some?
    ensures 0 < |p| <= |w| && p == PathOf(n, w, back)[..|p|]
    ensures |p| < |w| ==> Label(At(Insert(n, w, back), p).value) == Fresh(w[|p| - 1])
    decreases |w|, 0
  {
    var cs := n.children;
    var i := Slot(cs, w[0], back && |w| == 1);
    var c := if i < |cs| then cs[i] else Fresh(w[0]);
    var q := p[1..];
    assert p == [i] + q;
    AtInsertStep(n, w, back, q);
    if |q| > 0 {
      InsertNew(c, w[1..], back, q);
      PrefixCons(i, PathOf(c, w[1..], back), |q|);
    }
  }

  /** A path starting with the scanned child of a pass's first step leads
      where the rest of the path leads from that child, before and after. */
  lemma AtInsertStep(n: Node, w: seq<Token>, back: bool, q: seq<nat>)
    requires |w| > 1
    ensures var cs := n.children;
      var i := Slot(cs, w[0], false);
      var c := if i < |cs| then cs[i] else Fresh(w[0]);
      && At(Insert(n, w, back), [i] + q) == At(Insert(c, w[1..], back), q)
      && At(n, [i] + q) == (if i < |cs| then At(c, q) else None)
      && PathOf(n, w, back) == [i] + PathOf(c, w[1..], back)
      && (|q| > 0 && i == |cs| ==> At(c, q).None?)
  {
    InsertSlot(n, w, back);
    assert ([Slot(n.children, w[0], false)] + q)[1..] == q;
  }

  lemma PrefixCons<T>(x: T, t: seq<T>, k: nat)
    requires k <= |t|
    ensures ([x] + t)[..k + 1] == [x] + t[..k]
  {
  }

  /** The last step of a pass only relabels an existing child, so the paths
      through that child exist after it exactly when they did before. */
  lemma LastStepKeepsPaths(n: Node, w: seq<Token>, back: bool, p: seq<nat>)
    requires |w| == 1
    ensures var i := Slot(n.children, w[0], back);
      |p| > 0 && p[0] == i && i < |n.children| ==>
        (At(Insert(n, w, back), p).Some? <==> At(n, p).Some?)
  {
    var i := Slot(n.children, w[0], back);
    if |p| > 1 && p[0] == i && i < |n.children| {
      InsertSlot(n, w, back);
      AtBelow(Insert(n, w, back).children[i], n.children[i], p[1..]);
    }
  }

  /** A path that already exists is not moved by any later pass: scans stop
      at the same children, since passes never change a token or flag of an
      existing node and only append. */
  lemma {:induction false} PathStable(n: Node, w: seq<Token>, back: bool, v: seq<Token>, back': bool)
    requires |w| > 0 && |v| > 0
    requires Lookup(n, w, back).Some?
    ensures PathOf(Insert(n, v, back'), w, back) == PathOf(n, w, back)
    decreases |w|
  {
    var cs := n.children;
    var r := Insert(n, v, back');
    var mode := back && |w| == 1;
    var j := Slot(cs, w[0], mode);
    assert j < |cs|;
    assert forall k :: 0 <= k <= j ==> (Accepts(r.children[k], w[0], mode) <==> Accepts(cs[k], w[0], mode));
    SlotFirst(r.children, w[0], mode, j);
    if |w| > 1 {
      var i := Slot(cs, v[0], back' && |v| == 1);
      if j == i {
        if |v| == 1 {
          PathBelow(r.children[j], cs[j], w[1..], back);
        } else {
          PathStable(cs[j], w[1..], back, v[1..], back');
        }
      }
    }
  }

  // ---------------------------------------------------------------------
  // TrieNode.add as the properties of its two passes

  /** A word of length other than 3 takes only the forward pass: its node is
      counted once more and finished, no other node changes, and no node
      becomes `isBack`. */
  lemma AddForward(n: Node, w: seq<Token>, p: seq<nat>)
    requires |w| > 0 && |w| != 3
    ensures var t := Lookup(Add(n, w), w, false);
      t.Some? && t.value.finished && t.value.count == CountAt(n, w, false) + 1
    ensures At(n, p).Some? && p != PathOf(n, w, false) ==>
      At(Add(n, w), p).Some? && Label(At(Add(n, w), p).value) == Label(At(n, p).value)
    ensures At(Add(n, w), p).Some? && At(Add(n, w), p).value.isBack ==>
      At(n, p).Some? && At(n, p).value.isBack
  {
    InsertLands(n, w, false);
    if At(n, p).Some? && p != PathOf(n, w, false) {
      InsertFrame(n, w, false, p);
    }
    if At(Add(n, w), p).Some? {
      if At(n, p).None? {
        InsertNew(n, w, false, p);
        if |p| == |w| {
          assert p == PathOf(n, w, false);
        }
      } else if p != PathOf(n, w, false) {
        InsertFrame(n, w, false, p);
      }
    }
  }

  /** A trigram `a, b, c` also counts the rotated path `b -> c -> a`, whose
      last node ends up finished and `isBack`. */
  lemma AddTrigram(n: Node, w: seq<Token>)
    requires |w| == 3
    ensures var forward := Insert(n, w, false);
      var t := Lookup(Add(n, w), Rotate(w), true);
      && t.Some? && t.value.token == w[0]
      && t.value.finished && t.value.isBack
      && t.value.count == CountAt(forward, Rotate(w), true) + 1
  {
    InsertLands(Insert(n, w, false), Rotate(w), true);
  }

  /** `Add` applied `k` times to the same word. */
  function AddTimes(n: Node, w: seq<Token>, k: nat): Node {
    if k == 0 then n else Add(AddTimes(n, w, k - 1), w)
  }

  /** Adding the same unigram or bigram `k` times counts it `k` more times,
      and a first-token node the additions created keeps count 0. */
  lemma {:induction false} RepeatedAdd(n: Node, w: seq<Token>, k: nat)
    requires |w| == 1 || |w| == 2
    ensures PathOf(AddTimes(n, w, k), w, false) == PathOf(n, w, false)
    ensures CountAt(AddTimes(n, w, k), w, false) == CountAt(n, w, false) + k
    ensures k > 0 ==> Lookup(AddTimes(n, w, k), w, false).Some? && Lookup(AddTimes(n, w, k), w, false).value.finished
  {
    if k > 0 {
      var m := AddTimes(n, w, k - 1);
      RepeatedAdd(n, w, k - 1);
      assert AddTimes(n, w, k) == Insert(m, w, false);
      InsertLands(m, w, false);
    }
  }

  /** The first-token node that repeated additions of a bigram created keeps
      count 0 and stays unfinished. */
  lemma {:induction false} RepeatedAddPrefix(n: Node, w: seq<Token>, k: nat)
    requires |w| == 2 && k > 0
    requires At(n, PathOf(n, w, false)[..1]).None?
    ensures var q := PathOf(n, w, false)[..1];
      At(AddTimes(n, w, k), q).Some? && Label(At(AddTimes(n, w, k), q).value) == Fresh(w[0])
  {
    var q := PathOf(n, w, false)[..1];
    var m := AddTimes(n, w, k - 1);
    assert AddTimes(n, w, k) == Insert(m, w, false);
    if k == 1 {
      InsertLands(n, w, false);
      var f := Insert(n, w, false);
      assert PathOf(f, w, false)[..1] == q;
      assert At(f, q).Some?;
      InsertNew(n, w, false, q);
    } else {
      RepeatedAddPrefix(n, w, k - 1);
      InsertFrame(m, w, false, q);
    }
  }

  /** No node down to depth `k` is marked `isBack`. */
  predicate NoBackAbove(n: Node, k: nat) {
    k == 0 || forall i :: 0 <= i < |n.children| ==> !n.children[i].isBack && NoBackAbove(n.children[i], k - 1)
  }

  /** Without `isBack` nodes there is no rotated path to land on. */
  lemma {:induction false} NoBackNoRotated(n: Node, w: seq<Token>)
    requires |w| > 0 && NoBackAbove(n, |w|)
    ensures Lookup(n, w, true).None?
    decreases |w|
  {
    var cs := n.children;
    if |w| > 1 {
      var i := Slot(cs, w[0], false);
      LookupStep(n, w, true);
      if i < |cs| {
        NoBackNoRotated(cs[i], w[1..]);
      }
    }
  }

  /** A pass marks `isBack` only at its last node, at depth `|w|`. */
  lemma {:induction false} InsertNoBackAbove(n: Node, w: seq<Token>, back: bool, k: nat)
    requires |w| > 0 && NoBackAbove(n, k)
    requires !back || |w| > k
    ensures NoBackAbove(Insert(n, w, back), k)
    decreases |w|, 1
  {
    if k > 0 {
      if |w| == 1 {
        InsertNoBackLast(n, w, back, k);
      } else {
        InsertNoBackStep(n, w, back, k);
      }
    }
  }

  lemma InsertNoBackLast(n: Node, w: seq<Token>, back: bool, k: nat)
    requires |w| == 1 && k > 0 && NoBackAbove(n, k) && !back
    ensures NoBackAbove(Insert(n, w, back), k)
  {
    var cs := n.children;
    var i := Slot(cs, w[0], back && |w| == 1);
    var c := if i < |cs| then cs[i] else Fresh(w[0]);
    var r := Insert(n, w, back);
    InsertSlot(n, w, back);
    InsertOthers(n, w, back);
    NoBackChild(n, k, w[0], i);
    NoBackAboveChildren(r.children[i], c, k - 1);
    NoBackReplace(n, r, i, k);
  }

  lemma {:induction false} InsertNoBackStep(n: Node, w: seq<Token>, back: bool, k: nat)
    requires |w| > 1 && k > 0 && NoBackAbove(n, k)
    requires !back || |w| > k
    ensures NoBackAbove(Insert(n, w, back), k)
    decreases |w|, 0
  {
    var cs := n.children;
    var i := Slot(cs, w[0], back && |w| == 1);
    var c := if i < |cs| then cs[i] else Fresh(w[0]);
    var r := Insert(n, w, back);
    InsertSlot(n, w, back);
    InsertOthers(n, w, back);
    NoBackChild(n, k, w[0], i);
    var w' := w[1..];
    assert |w'| == |w| - 1 && |w'| > 0;
    assert NoBackAbove(c, k - 1);
    InsertNoBackAbove(c, w', back, k - 1);
    assert Label(r.children[i]) == Label(c);
    NoBackReplace(n, r, i, k);
  }

  /** Each child, and a fresh node appended as one, keeps one level fewer
      free of `isBack` nodes. */
  lemma NoBackChild(n: Node, k: nat, t: Token, i: nat)
    requires k > 0 && NoBackAbove(n, k) && i <= |n.children|
    ensures var c := if i < |n.children| then n.children[i] else Fresh(t);
      !c.isBack && NoBackAbove(c, k - 1)
  {
  }

  /** Changing one child, or appending it, keeps the top `k` levels free of
      `isBack` nodes when the new child and its top `k - 1` levels are. */
  lemma NoBackReplace(n: Node, r: Node, i: nat, k: nat)
    requires k > 0 && NoBackAbove(n, k)
    requires i < |r.children| && |n.children| <= |r.children| <= |n.children| + 1
    requires |r.children| > |n.children| ==> i == |n.children|
    requires forall j :: 0 <= j < |n.children| && j != i ==> r.children[j] == n.children[j]
    requires !r.children[i].isBack && NoBackAbove(r.children[i], k - 1)
    ensures NoBackAbove(r, k)
  {
    forall j | 0 <= j < |r.children|
      ensures !r.children[j].isBack && NoBackAbove(r.children[j], k - 1)
    {
      if j != i {
        assert !n.children[j].isBack && NoBackAbove(n.children[j], k - 1);
      }
    }
  }

  /** Whether `isBack` nodes occur below a node depends only on its children. */
  lemma NoBackAboveChildren(x: Node, y: Node, k: nat)
    requires x.children == y.children
    ensures NoBackAbove(x, k) == NoBackAbove(y, k)
  {
  }

  /** A pass changes no child of `n` other than the one its scan stops at. */
  lemma InsertOthers(n: Node, w: seq<Token>, back: bool)
    requires |w| > 0
    ensures var i := Slot(n.children, w[0], back && |w| == 1);
      var r := Insert(n, w, back);
      && |r.children| == (if i < |n.children| then |n.children| else |n.children| + 1)
      && forall j :: 0 <= j < |n.children| && j != i ==> r.children[j] == n.children[j]
  {
  }

  /** Adding a trigram to an empty trie counts `a -> b -> c` once, not
      `isBack`, and `b -> c -> a` once, `isBack`. */
  lemma TrigramIntoEmpty(t: Token, w: seq<Token>)
    requires |w| == 3
    ensures var r := Add(Fresh(t), w);
      && CountAt(r, w, false) == 1 && !BackAt(r, w, false)
      && CountAt(r, Rotate(w), true) == 1 && BackAt(r, Rotate(w), true)
  {
    var e := Fresh(t);
    var f := Insert(e, w, false);
    FreshLookup(t, w, false);
    InsertLands(e, w, false);
    InsertNoBackAbove(e, w, false, 3);
    NoBackNoRotated(f, Rotate(w));
    InsertLands(f, Rotate(w), true);
    var P := PathOf(f, w, false);
    assert P != PathOf(f, Rotate(w), true);
    InsertFrame(f, Rotate(w), true, P);
    PathStable(f, w, false, Rotate(w), true);
  }

  // ---------------------------------------------------------------------
  // Invariants every trie built by the constructor and `add` satisfies

  predicate SiblingsDistinct(cs: seq<Node>) {
    forall i, j :: 0 <= i < j < |cs| ==> Key(cs[i]) != Key(cs[j])
  }

  /** No node has two children with the same token and the same `isBack` flag. */
  predicate KeysUnique(n: Node) {
    && SiblingsDistinct(n.children)
    && forall i :: 0 <= i < |n.children| ==> KeysUnique(n.children[i])
  }

  /** A pass reuses an accepted child and appends only when the scan found
      none, so it never puts two children with the same key under a node. */
  lemma {:induction false} InsertKeysUnique(n: Node, w: seq<Token>, back: bool)
    requires |w| > 0 && KeysUnique(n)
    ensures KeysUnique(Insert(n, w, back))
    decreases |w|
  {
    InsertSlot(n, w, back);
    var cs := n.children;
    var mode := back && |w| == 1;
    var i := Slot(cs, w[0], mode);
    var c := if i < |cs| then cs[i] else Fresh(w[0]);
    var r := Insert(n, w, back);
    if |w| > 1 {
      InsertKeysUnique(c, w[1..], back);
    } else {
      assert r.children[i].children == c.children;
    }
    if i == |cs| {
      assert Key(r.children[i]) == (w[0], mode);
      forall j | 0 <= j < |cs|
        ensures Key(cs[j]) != Key(r.children[i])
      {
        assert !Accepts(cs[j], w[0], mode);
      }
    }
    SiblingsAfterPass(cs, r.children);
    ReplaceChild(n, r, i);
  }

  /** Children that keep their keys, plus possibly one appended child whose
      key is new, stay pairwise distinct. */
  lemma SiblingsAfterPass(cs: seq<Node>, rs: seq<Node>)
    requires SiblingsDistinct(cs)
    requires |cs| <= |rs| <= |cs| + 1
    requires forall j :: 0 <= j < |cs| ==> Key(rs[j]) == Key(cs[j])
    requires |rs| > |cs| ==> forall j :: 0 <= j < |cs| ==> Key(cs[j]) != Key(rs[|cs|])
    ensures SiblingsDistinct(rs)
  {
  }

  /** Changing one child, or appending it, keeps key uniqueness when the new
      child has it and the siblings stay distinct. */
  lemma ReplaceChild(n: Node, r: Node, i: nat)
    requires KeysUnique(n) && SiblingsDistinct(r.children)
    requires i < |r.children| && |n.children| <= |r.children| <= |n.children| + 1
    requires |r.children| > |n.children| ==> i == |n.children|
    requires forall j :: 0 <= j < |n.children| && j != i ==> r.children[j] == n.children[j]
    requires KeysUnique(r.children[i])
    ensures KeysUnique(r)
  {
    assert forall j :: 0 <= j < |r.children| ==> KeysUnique(r.children[j]) by {
      forall j | 0 <= j < |r.children|
        ensures KeysUnique(r.children[j])
      {
        if j != i {
          assert KeysUnique(n.children[j]);
        }
      }
    }
  }

  /** Every count is non-negative and every finished node has been counted. */
  predicate Weighted(n: Node)
    decreases n, 1
  {
    && n.count >= 0
    && (n.finished ==> n.count >= 1)
    && ChildrenWeighted(n)
  }

  predicate ChildrenWeighted(n: Node)
    decreases n, 0
  {
    forall i :: 0 <= i < |n.children| ==> Weighted(n.children[i])
  }

  /** Nodes below depth 1 are only ever created and counted by passes; depth-1
      nodes may carry any count the constructor was given. */
  predicate CountsPositive(root: Node) {
    forall i :: 0 <= i < |root.children| ==> ChildrenWeighted(root.children[i])
  }

  lemma {:induction false} InsertChildrenWeighted(n: Node, w: seq<Token>, back: bool)
    requires |w| > 0 && ChildrenWeighted(n)
    ensures ChildrenWeighted(Insert(n, w, back))
    decreases |w|
  {
    InsertSlot(n, w, back);
    var cs := n.children;
    var i := Slot(cs, w[0], back && |w| == 1);
    var c := if i < |cs| then cs[i] else Fresh(w[0]);
    assert Weighted(c);
    if |w| > 1 {
      InsertChildrenWeighted(c, w[1..], back);
    }
    var r := Insert(n, w, back);
    var c' := r.children[i];
    if |w| == 1 {
      assert c'.children == c.children;
      assert ChildrenWeighted(c);
      assert ChildrenWeighted(c');
    }
    assert Weighted(c');
    assert forall j :: 0 <= j < |r.children| ==> Weighted(r.children[j]);
  }

  lemma {:induction false} InsertCountsPositive(n: Node, w: seq<Token>, back: bool)
    requires |w| > 0 && CountsPositive(n)
    ensures CountsPositive(Insert(n, w, back))
  {
    InsertSlot(n, w, back);
    var cs := n.children;
    var i := Slot(cs, w[0], back && |w| == 1);
    var c := if i < |cs| then cs[i] else Fresh(w[0]);
    if |w| > 1 {
      InsertChildrenWeighted(c, w[1..], back);
    }
    var r := Insert(n, w, back);
    assert ChildrenWeighted(r.children[i]);
    assert forall j :: 0 <= j < |r.children| ==> ChildrenWeighted(r.children[j]);
  }

  /** The shape every trie the program builds has: unique child keys, no
      `isBack` node at depths 1 and 2, and positive counts below depth 1. */
  predicate Valid(root: Node) {
    KeysUnique(root) && NoBackAbove(root, 2) && CountsPositive(root)
  }

  /** `add` keeps the trie valid, for words of any length. */
  lemma AddValid(root: Node, w: seq<Token>)
    requires Valid(root)
    ensures Valid(Add(root, w))
  {
    if |w| > 0 {
      var f := Insert(root, w, false);
      InsertKeysUnique(root, w, false);
      InsertNoBackAbove(root, w, false, 2);
      InsertCountsPositive(root, w, false);
      if |w| == 3 {
        InsertKeysUnique(f, Rotate(w), true);
        InsertNoBackAbove(f, Rotate(w), true, 2);
        InsertCountsPositive(f, Rotate(w), true);
      }
    }
  }

  lemma {:induction false} BuildValid(root: Node, words: seq<seq<Token>>)
    requires Valid(root)
    ensures Valid(Build(root, words))
  {
    if |words| > 0 {
      BuildValid(root, words[..|words| - 1]);
      AddValid(Build(root, words[..|words| - 1]), words[|words| - 1]);
    }
  }

  /** The constructor builds a valid trie from any dict of integer strings. */
  lemma SeedValid(rootToken: Token, data: Dict<Token, string>)
    requires forall i :: 0 <= i < |data| ==> Numerals.IsInteger(data[i].1)
    requires DistinctKeys(data)
    ensures Valid(Seed(rootToken, data))
  {
    var root := Seed(rootToken, data);
    assert forall i :: 0 <= i < |data| ==> root.children[i].token == data[i].0;
  }

  /** Looking a seeded key up as a unigram finds its node with the seeded
      count, finished. */
  lemma SeedLookup(rootToken: Token, data: Dict<Token, string>, i: nat)
    requires forall i :: 0 <= i < |data| ==> Numerals.IsInteger(data[i].1)
    requires DistinctKeys(data)
    requires i < |data|
    ensures var t := Lookup(Seed(rootToken, data), [data[i].0], false);
      t.Some? && t.value.finished && t.value.count == Numerals.ParseInt(data[i].1)
  {
    var root := Seed(rootToken, data);
    assert forall j :: 0 <= j < |data| ==> root.children[j].token == data[j].0;
    assert Slot(root.children, data[i].0, false) == i;
    assert At(root, [i]) == At(root.children[i], [i][1..]);
  }

  /** In a valid trie the children of the root and of each depth-1 node have
      pairwise distinct tokens: both passes reuse any equal token there. */
  lemma ShallowTokensDistinct(root: Node)
    requires Valid(root)
    ensures forall i, j :: 0 <= i < j < |root.children| ==>
      root.children[i].token != root.children[j].token
    ensures forall k, i, j :: 0 <= k < |root.children| && 0 <= i < j < |root.children[k].children| ==>
      root.children[k].children[i].token != root.children[k].children[j].token
  {
    forall k, i, j | 0 <= k < |root.children| && 0 <= i < j < |root.children[k].children|
      ensures root.children[k].children[i].token != root.children[k].children[j].token
    {
      var c := root.children[k];
      assert KeysUnique(c);
      assert NoBackAbove(c, 1);
      assert Key(c.children[i]) != Key(c.children[j]);
    }
  }

  // A worked example: adding `c, a, b` and then `a, b, c` to an empty trie.

  const CabTree := Node("c", false, 0, [Node("a", false, 0, [Node("b", true, 1, [], false)], false)], false)
  const AbcBack := Node("a", false, 0, [Node("b", false, 0, [Node("c", true, 1, [], true)], false)], false)
  const AbcTwice := Node("a", false, 0, [Node("b", false, 0, [Node("c", true, 2, [], true)], false)], false)
  const BcaBack := Node("b", false, 0, [Node("c", false, 0, [Node("a", true, 1, [], true)], false)], false)

  lemma ExampleFirstAdd()
    ensures Add(Fresh(""), ["c", "a", "b"]) == Node("", false, 0, [CabTree, AbcBack], false)
  {
    var w := ["c", "a", "b"];
    assert w[1..] == ["a", "b"] && w[1..][1..] == ["b"];
    var v := Rotate(w);
    assert v == ["a", "b", "c"] && v[1..] == ["b", "c"] && v[1..][1..] == ["c"];
    assert Insert(Fresh("a"), ["b"], false) == CabTree.children[0];
    assert Insert(Fresh("c"), ["a", "b"], false) == CabTree;
    var f1 := Node("", false, 0, [CabTree], false);
    assert Insert(Fresh(""), w, false) == f1;
    assert Insert(Fresh("b"), ["c"], true) == AbcBack.children[0];
    assert Insert(Fresh("a"), ["b", "c"], true) == AbcBack;
  }

  lemma ExampleSecondForward()
    ensures Insert(Node("", false, 0, [CabTree, AbcBack], false), ["a", "b", "c"], false)
      == Node("", false, 0, [CabTree, AbcTwice], false)
  {
    var v := ["a", "b", "c"];
    assert v[1..] == ["b", "c"] && v[1..][1..] == ["c"];
    assert Insert(AbcBack.children[0], ["c"], false) == AbcTwice.children[0];
    assert Insert(AbcBack, ["b", "c"], false) == AbcTwice;
  }

  lemma ExampleSecondRotated()
    ensures Insert(Node("", false, 0, [CabTree, AbcTwice], false), ["b", "c", "a"], true)
      == Node("", false, 0, [CabTree, AbcTwice, BcaBack], false)
  {
    var u := ["b", "c", "a"];
    assert u[1..] == ["c", "a"] && u[1..][1..] == ["a"];
    assert Insert(Fresh("c"), ["a"], true) == BcaBack.children[0];
    assert Insert(Fresh("b"), ["c", "a"], true) == BcaBack;
  }

  /** The forward pass matches any child with the token (model.py:83), so it
      can land on a node an earlier rotated pass created: after `c, a, b` the
      trigram `a, b, c` is counted on the `isBack` node, and no forward node
      for it exists. */
  lemma ForwardLandsOnRotated()
    ensures Add(Add(Fresh(""), ["c", "a", "b"]), ["a", "b", "c"])
      == Node("", false, 0, [CabTree, AbcTwice, BcaBack], false)
  {
    ExampleFirstAdd();
    ExampleSecondForward();
    assert Rotate(["a", "b", "c"]) == ["b", "c", "a"];
    ExampleSecondRotated();
  }
}

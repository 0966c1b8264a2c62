/** `generate_ngram` (utils.py:28-40): every contiguous window of length
    1 to n of a token list, shorter windows first. `generate_ngram` builds
    each window as a tuple of `zip` over shifted copies of the list. */
module NGram {

  /** `s[j:]`, which is empty once `j` passes the end. */
  function Drop<T>(s: seq<T>, j: nat): (r: seq<T>)
    ensures |r| == if j <= |s| then |s| - j else 0
  {
    if j <= |s| then s[j..] else []
  }

  /** The length of the shortest list. */
  function MinLength<T>(lists: seq<seq<T>>): nat
    requires |lists| > 0
  {
    if |lists| == 1 then |lists[0]|
    else
      var rest := MinLength(lists[1..]);
      if |lists[0]| <= rest then |lists[0]| else rest
  }

  /** `MinLength` is the length of one of the lists and no longer than any. */
  lemma {:induction false} MinLengthSpec<T>(lists: seq<seq<T>>)
    requires |lists| > 0
    ensures forall j :: 0 <= j < |lists| ==> MinLength(lists) <= |lists[j]|
    ensures exists j :: 0 <= j < |lists| && MinLength(lists) == |lists[j]|
  {
    if |lists| > 1 {
      MinLengthSpec(lists[1..]);
      assert forall j :: 1 <= j < |lists| ==> lists[j] == lists[1..][j - 1];
      var j :| 0 <= j < |lists[1..]| && MinLength(lists[1..]) == |lists[1..][j]|;
      assert MinLength(lists[1..]) == |lists[j + 1]|;
    }
  }

  /** `zip(*lists)`: tuple `k` holds element `k` of every list, and zipping
      stops at the end of the shortest list. */
  function Zip<T>(lists: seq<seq<T>>): seq<seq<T>>
    requires |lists| > 0
  {
    var m := MinLength(lists);
    MinLengthSpec(lists);
    seq(m, k requires 0 <= k < m => seq(|lists|, j requires 0 <= j < |lists| => lists[j][k]))
  }

  /** The windows of length `i`: `zip(*[s[j:] for j in range(i)])`. */
  function Windows<T>(s: seq<T>, i: nat): seq<seq<T>>
    requires i >= 1
  {
    Zip(seq(i, j requires 0 <= j < i => Drop(s, j)))
  }

  /** How many windows of length `i` a list of length `len` has. */
  function WindowCount(len: nat, i: nat): nat {
    if i <= len + 1 then len + 1 - i else 0
  }

  /** There is one window of length `i` per start position that leaves room
      for it, and the window at `k` is the slice `s[k..k + i]`. */
  lemma WindowsSpec<T>(s: seq<T>, i: nat)
    requires i >= 1
    ensures |Windows(s, i)| == WindowCount(|s|, i)
    ensures forall k :: 0 <= k < |Windows(s, i)| ==> Windows(s, i)[k] == s[k..k + i]
  {
    var lists := seq(i, j requires 0 <= j < i => Drop(s, j));
    var m := MinLength(lists);
    MinLengthSpec(lists);
    assert |lists[i - 1]| == WindowCount(|s|, i);
    assert m == WindowCount(|s|, i);
    var w := Windows(s, i);
    forall k | 0 <= k < |w|
      ensures w[k] == s[k..k + i]
    {
      assert forall j :: 0 <= j < i ==> w[k][j] == lists[j][k] == s[j + k];
    }
  }

  /** Every window of length `i` has length `i`. */
  lemma WindowsShape<T>(s: seq<T>, i: nat)
    requires i >= 1
    ensures |Windows(s, i)| == WindowCount(|s|, i)
    ensures forall k :: 0 <= k < |Windows(s, i)| ==> |Windows(s, i)[k]| == i
  {
    WindowsSpec(s, i);
  }

  /** `generate_ngram(s, n)`: the windows of length 1, then 2, up to `n`. */
  function GenerateNgram<T>(s: seq<T>, n: int): seq<seq<T>>
    decreases n
  {
    if n < 1 then [] else GenerateNgram(s, n - 1) + Windows(s, n)
  }

  /** Where the block of windows of length `i` starts in the output: after
      all the shorter windows. */
  function Offset(len: nat, i: nat): nat {
    if i <= 1 then 0 else Offset(len, i - 1) + WindowCount(len, i - 1)
  }

  /** The output holds the windows of every length from 1 to `n` and nothing
      else: its length is the sum of their counts. */
  lemma {:induction false} GenerateNgramSize<T>(s: seq<T>, n: int)
    ensures n < 1 ==> GenerateNgram(s, n) == []
    ensures n >= 1 ==> |GenerateNgram(s, n)| == Offset(|s|, n + 1)
    decreases n
  {
    if n >= 1 {
      GenerateNgramSize(s, n - 1);
      WindowsShape(s, n);
    }
  }

  /** The exact layout of the output: the windows of length `i` form one
      block starting at `Offset(|s|, i)`, holding the window at each start
      position `k` in increasing order. */
  lemma {:induction false} GenerateNgramAt<T>(s: seq<T>, n: int, i: nat, k: nat)
    requires 1 <= i <= n && k < WindowCount(|s|, i)
    ensures Offset(|s|, i) + k < |GenerateNgram(s, n)|
    ensures GenerateNgram(s, n)[Offset(|s|, i) + k] == s[k..k + i]
    decreases n
  {
    var front := GenerateNgram(s, n - 1);
    var w := Windows(s, n);
    GenerateNgramSize(s, n - 1);
    WindowsShape(s, n);
    if i == n {
      WindowsSpec(s, n);
      assert |front| == Offset(|s|, n);
      assert (front + w)[|front| + k] == w[k];
    } else {
      GenerateNgramAt(s, n - 1, i, k);
      GenerateNgramSize(s, n);
      assert (front + w)[Offset(|s|, i) + k] == front[Offset(|s|, i) + k];
    }
  }

  /** Every window has a length between 1 and `n`, and lengths never decrease
      along the output. */
  lemma {:induction false} GenerateNgramOrdered<T>(s: seq<T>, n: int)
    ensures forall a :: 0 <= a < |GenerateNgram(s, n)| ==> 1 <= |GenerateNgram(s, n)[a]| <= n
    ensures forall a, b :: 0 <= a < b < |GenerateNgram(s, n)| ==>
      |GenerateNgram(s, n)[a]| <= |GenerateNgram(s, n)[b]|
    decreases n
  {
    if n >= 1 {
      GenerateNgramOrdered(s, n - 1);
      WindowsShape(s, n);
      var front := GenerateNgram(s, n - 1);
      var w := Windows(s, n);
      assert forall a :: 0 <= a < |w| ==> |w[a]| == n;
      assert forall a :: 0 <= a < |front + w| ==> (front + w)[a] == if a < |front| then front[a] else w[a - |front|];
    }
  }

  /** The number of windows of length `i` in `r`. */
  function CountOfLength<T>(r: seq<seq<T>>, i: nat): nat {
    if |r| == 0 then 0 else CountOfLength(r[..|r| - 1], i) + (if |r[|r| - 1]| == i then 1 else 0)
  }

  lemma {:induction false} CountOfLengthAppend<T>(a: seq<seq<T>>, b: seq<seq<T>>, i: nat)
    ensures CountOfLength(a + b, i) == CountOfLength(a, i) + CountOfLength(b, i)
    decreases |b|
  {
    if |b| > 0 {
      var b' := b[..|b| - 1];
      assert (a + b)[..|a + b| - 1] == a + b';
      CountOfLengthAppend(a, b', i);
    } else {
      assert a + b == a;
    }
  }

  lemma {:induction false} CountOfLengthUniform<T>(r: seq<seq<T>>, i: nat, len: nat)
    requires forall a :: 0 <= a < |r| ==> |r[a]| == len
    ensures CountOfLength(r, i) == if i == len then |r| else 0
  {
    if |r| > 0 {
      CountOfLengthUniform(r[..|r| - 1], i, len);
    }
  }

  /** For each length `i` from 1 to `n` the output holds exactly
      `max(0, |s| - i + 1)` windows of that length, and none of any other. */
  lemma {:induction false} GenerateNgramCounts<T>(s: seq<T>, n: int, i: nat)
    ensures CountOfLength(GenerateNgram(s, n), i) == if 1 <= i <= n then WindowCount(|s|, i) else 0
    decreases n
  {
    if n >= 1 {
      GenerateNgramCounts(s, n - 1, i);
      WindowsShape(s, n);
      CountOfLengthAppend(GenerateNgram(s, n - 1), Windows(s, n), i);
      CountOfLengthUniform(Windows(s, n), i, n);
    }
  }

  /** An empty list has no windows at all. */
  lemma {:induction false} GenerateNgramEmpty<T>(s: seq<T>, n: int)
    requires |s| == 0
    ensures GenerateNgram(s, n) == []
    decreases n
  {
    if n >= 1 {
      GenerateNgramEmpty(s, n - 1);
      WindowsShape(s, n);
    }
  }
}

/** Island detection of `KLUSystem::FindIslands`: a stack-based depth-first
    search down the columns of the compressed pattern, labelling every node
    with the number of the island it was reached in. */
module Islands {
  import opened Sparse

  /** Values of a distinct sequence of nodes below n number at most n
      (why a stack of n + 1 slots cannot overflow). */
  lemma {:induction false} DistinctBound(s: seq<int>, n: nat)
    requires forall a, b :: 0 <= a < b < |s| ==> s[a] != s[b]
    requires forall t :: 0 <= t < |s| ==> 0 <= s[t] < n
    decreases |s|
    ensures |s| <= n
  {
    if |s| > 0 {
      var v := s[|s| - 1];
      assert 0 <= v < n;
      var front := s[..|s| - 1];
      var s' := seq(|front|, t requires 0 <= t < |front| => if front[t] == n - 1 then v else front[t]);
      forall a, b | 0 <= a < b < |s'| ensures s'[a] != s'[b] {
        assert front[a] == s[a] && front[b] == s[b];
      }
      forall t | 0 <= t < |s'| ensures 0 <= s'[t] < n - 1 {
        assert front[t] == s[t];
      }
      DistinctBound(s', n - 1);
      assert |s| == |s'| + 1;
    }
  }

  /** An entry of row `r` is stored in column `x` at slot k. */
  predicate Edge(m: Csc, n: nat, x: int, k: int)
    requires Shape(m, n)
  {
    0 <= x < n && m.ap[x] <= k < m.ap[x + 1]
  }

  /** Every node reachable in one step down a labelled column other than
      `v` carries a label no larger than that column's, except the pending
      ones (-1) of the island `cnt` under construction. */
  ghost predicate ClosedBut(m: Csc, n: nat, clique: seq<int>, cnt: int, v: int)
    requires Shape(m, n) && |clique| == n
  {
    forall x, k :: Edge(m, n, x, k) && clique[x] >= 1 && x != v ==>
      (1 <= clique[m.ai[k]] <= clique[x]) || (clique[m.ai[k]] == -1 && clique[x] == cnt)
  }

  ghost predicate Closed(m: Csc, n: nat, clique: seq<int>, cnt: int)
    requires Shape(m, n) && |clique| == n
  {
    ClosedBut(m, n, clique, cnt, -1)
  }

  /** Labels given before stay, every label is in -1..cnt, and the pattern
      is closed under the labelling. */
  ghost predicate Labelled(m: Csc, n: nat, o: seq<int>, c: seq<int>, cnt: int)
    requires Shape(m, n) && |c| == n
  {
    Kept(o, c, cnt) && InRange(c, -1, cnt) && Closed(m, n, c, cnt)
  }

  /** The stack holds exactly the pending nodes, each once. */
  ghost predicate StackOk(s: seq<int>, clique: seq<int>)
  {
    && (forall t :: 0 <= t < |s| ==> 0 <= s[t] < |clique| && clique[s[t]] == -1)
    && (forall a, b :: 0 <= a < b < |s| ==> s[a] != s[b])
    && (forall x :: 0 <= x < |clique| && clique[x] == -1 ==> x in s)
  }

  /** Before the first pop the stack holds only the unvisited start node. */
  ghost predicate Pending(s: seq<int>, clique: seq<int>)
  {
    StackOk(s, clique) ||
    (|s| == 1 && 0 <= s[0] < |clique| && clique[s[0]] == 0 &&
     forall x :: 0 <= x < |clique| ==> clique[x] != -1)
  }

  /** Labels already given never change; other nodes stay unvisited, wait
      on the stack, or join island `cnt`. */
  ghost predicate Kept(o: seq<int>, clique: seq<int>, cnt: int)
  {
    |o| == |clique| &&
    forall x :: 0 <= x < |clique| ==>
      if o[x] >= 1 then clique[x] == o[x] else clique[x] in {-1, 0, cnt}
  }

  ghost predicate InRange(clique: seq<int>, lo: int, hi: int)
  {
    forall x :: 0 <= x < |clique| ==> lo <= clique[x] <= hi
  }

  ghost function ZeroSet(clique: seq<int>): set<int>
  {
    set x | 0 <= x < |clique| && clique[x] == 0
  }

  /** The rows of column v at slots [ap[v], k) have been visited. */
  ghost predicate Visited(m: Csc, n: nat, c: seq<int>, v: int, k: int)
    requires Shape(m, n) && |c| == n && 0 <= v < n
  {
    forall k' :: m.ap[v] <= k' < k && k' < m.ap[v + 1] ==> c[m.ai[k']] != 0
  }

  lemma VisitStep(m: Csc, n: nat, c: seq<int>, v: int, k: int)
    requires Shape(m, n) && |c| == n && 0 <= v < n && m.ap[v] <= k < m.ap[v + 1]
    requires Visited(m, n, c, v, k) && c[m.ai[k]] != 0
    ensures Visited(m, n, c, v, k + 1)
  {
  }

  lemma PopStep(m: Csc, n: nat, o: seq<int>, c: seq<int>, s: seq<int>, cnt: int)
    requires Shape(m, n) && |c| == n && cnt >= 1 && |s| >= 1
    requires Pending(s, c) && Labelled(m, n, o, c, cnt)
    ensures StackOk(s[..|s| - 1], c[s[|s| - 1] := cnt])
    ensures Kept(o, c[s[|s| - 1] := cnt], cnt) && InRange(c[s[|s| - 1] := cnt], -1, cnt)
    ensures ClosedBut(m, n, c[s[|s| - 1] := cnt], cnt, s[|s| - 1])
    ensures ZeroSet(c[s[|s| - 1] := cnt]) <= ZeroSet(c)
  {
    var v := s[|s| - 1];
    var c' := c[v := cnt];
    var s' := s[..|s| - 1];
    forall x | 0 <= x < n && c'[x] == -1 ensures x in s' {
      assert x in s;
      var t :| 0 <= t < |s| && s[t] == x;
      assert s'[t] == x;
    }
    forall t | 0 <= t < |s'| ensures 0 <= s'[t] < n && c'[s'[t]] == -1 {
      assert s'[t] == s[t];
    }
  }

  lemma PushStep(m: Csc, n: nat, o: seq<int>, c: seq<int>, s: seq<int>, cnt: int, v: int, k: int, i: int)
    requires Shape(m, n) && |c| == n && cnt >= 1 && 0 <= i < n && c[i] == 0
    requires StackOk(s, c) && Kept(o, c, cnt) && InRange(c, -1, cnt) && ClosedBut(m, n, c, cnt, v)
    ensures StackOk(s + [i], c[i := -1])
    ensures Kept(o, c[i := -1], cnt) && InRange(c[i := -1], -1, cnt)
    ensures ClosedBut(m, n, c[i := -1], cnt, v)
    ensures ZeroSet(c[i := -1]) == ZeroSet(c) - {i}
    ensures 0 <= v < n && Visited(m, n, c, v, k) ==> Visited(m, n, c[i := -1], v, k)
  {
    var c' := c[i := -1];
    forall x | 0 <= x < n && c'[x] == -1 ensures x in s + [i] {
      if x != i { assert x in s; }
    }
  }

  /** Once every row of column `v` is visited, `v` is closed too. */
  lemma CloseColumn(m: Csc, n: nat, c: seq<int>, cnt: int, v: int)
    requires Shape(m, n) && |c| == n && 0 <= v < n && c[v] == cnt
    requires InRange(c, -1, cnt) && ClosedBut(m, n, c, cnt, v)
    requires Visited(m, n, c, v, m.ap[v + 1])
    ensures Closed(m, n, c, cnt)
  {
  }

  /** Labels given before `o` stay; every other node is unvisited or
      joined island `cnt`. */
  ghost predicate Joined(o: seq<int>, c: seq<int>, cnt: int)
  {
    |o| == |c| && forall x :: 0 <= x < |c| ==> if o[x] >= 1 then c[x] == o[x] else c[x] in {0, cnt}
  }

  /** With the stack empty no node is pending any more. */
  lemma Finish(o: seq<int>, c: seq<int>, s: seq<int>, cnt: int)
    requires Pending(s, c) && |s| == 0 && Kept(o, c, cnt) && InRange(c, -1, cnt)
    ensures InRange(c, 0, cnt)
    ensures Joined(o, c, cnt)
  {
  }

  /** The state inside `mark_dfs`'s inner loop, over slot k of column v. */
  ghost predicate Scanning(m: Csc, n: nat, o: seq<int>, c: seq<int>, s: seq<int>, cnt: int, v: int, k: int)
    requires Shape(m, n) && |c| == n && 0 <= v < n
  {
    && StackOk(s, c) && Kept(o, c, cnt) && InRange(c, -1, cnt)
    && ClosedBut(m, n, c, cnt, v) && Visited(m, n, c, v, k)
  }

  /** Pushing the unvisited row at slot k keeps the loop state. */
  lemma ScanPush(m: Csc, n: nat, o: seq<int>, c: seq<int>, s: seq<int>, cnt: int, v: int, k: int)
    requires Shape(m, n) && |c| == n && cnt >= 1 && 0 <= v < n && m.ap[v] <= k < m.ap[v + 1]
    requires Scanning(m, n, o, c, s, cnt, v, k) && c[m.ai[k]] == 0
    ensures Scanning(m, n, o, c[m.ai[k] := -1], s + [m.ai[k]], cnt, v, k + 1)
    ensures ZeroSet(c[m.ai[k] := -1]) == ZeroSet(c) - {m.ai[k]}
    ensures |s| + 1 <= n
  {
    var i := m.ai[k];
    PushStep(m, n, o, c, s, cnt, v, k, i);
    DistinctBound(s + [i], n);
    VisitStep(m, n, c[i := -1], v, k);
  }

  /** Passing over a visited row keeps the loop state. */
  lemma ScanSkip(m: Csc, n: nat, o: seq<int>, c: seq<int>, s: seq<int>, cnt: int, v: int, k: int)
    requires Shape(m, n) && |c| == n && 0 <= v < n && m.ap[v] <= k < m.ap[v + 1]
    requires Scanning(m, n, o, c, s, cnt, v, k) && c[m.ai[k]] != 0
    ensures Scanning(m, n, o, c, s, cnt, v, k + 1)
  {
    VisitStep(m, n, c, v, k);
  }

  /** `push`: stores v in the next free slot of the stack. */
  method Push(stack: array<int>, sp0: int, v: int) returns (sp: int)
    requires 0 <= sp0 < stack.Length
    modifies stack
    ensures sp == sp0 + 1 && stack[..sp] == old(stack[..sp0]) + [v]
    ensures forall q :: 0 <= q < stack.Length && q != sp0 ==> stack[q] == old(stack[q])
  {
    stack[sp0] := v;
    sp := sp0 + 1;
  }

  /** `pop`: takes the top entry off the stack. */
  method Pop(stack: array<int>, sp0: int) returns (sp: int, v: int)
    requires 0 < sp0 <= stack.Length
    ensures sp == sp0 - 1 && stack[..sp0] == stack[..sp] + [v]
  {
    sp := sp0 - 1;
    v := stack[sp];
    assert stack[..sp0] == stack[..sp] + [v];
  }

  /** The body of `mark_dfs`'s inner loop: pushes every unvisited row of
      column `v` and marks it pending. */
  method ScanColumn(m: Csc, n: nat, ghost o: seq<int>, v: int, cnt: int, clique: array<int>, stack: array<int>, sp0: int)
    returns (sp: int)
    requires Shape(m, n) && clique.Length == n && stack.Length == n + 1 && clique != stack
    requires 0 <= v < n && clique[v] == cnt && cnt >= 1 && 0 <= sp0 <= n
    requires StackOk(stack[..sp0], clique[..])
    requires Kept(o, clique[..], cnt) && InRange(clique[..], -1, cnt)
    requires ClosedBut(m, n, clique[..], cnt, v)
    modifies clique, stack
    ensures sp0 <= sp <= n && forall q :: 0 <= q < sp0 ==> stack[q] == old(stack[q])
    ensures OnlyZerosChanged(old(clique[..]), clique[..])
    ensures ChangedIn(m, n, old(clique[..]), clique[..], v)
    ensures Fewer(old(clique[..]), clique[..], sp > sp0)
    ensures StackOk(stack[..sp], clique[..])
    ensures Labelled(m, n, o, clique[..], cnt)
  {
    ghost var zeros0 := ZeroSet(clique[..]);
    ghost var c0 := clique[..];
    sp := sp0;
    var k := m.ap[v];
    while k < m.ap[v + 1]
      invariant m.ap[v] <= k <= m.ap[v + 1]
      invariant sp0 <= sp <= n && forall q :: 0 <= q < sp0 ==> stack[q] == old(stack[q])
      invariant sp > sp0 ==> ZeroSet(clique[..]) < zeros0
      invariant OnlyZerosChanged(c0, clique[..])
      invariant ChangedIn(m, n, c0, clique[..], v)
      invariant Scanning(m, n, o, clique[..], stack[..sp], cnt, v, k)
    {
      var i := m.ai[k];
      if clique[i] == 0 {
        ghost var c := clique[..];
        ghost var s := stack[..sp];
        ScanPush(m, n, o, c, s, cnt, v, k);
        ChangedPush(m, n, c0, c, v, k);
        sp := Push(stack, sp, i);
        clique[i] := -1;
        assert clique[..] == c[i := -1];
      } else {
        ScanSkip(m, n, o, clique[..], stack[..sp], cnt, v, k);
      }
      k := k + 1;
    }
    FewerZeros(c0, clique[..], sp > sp0);
    CloseColumn(m, n, clique[..], cnt, v);
  }

  /** No zero slot is created, and some zero slot is gone when `strict`. */
  ghost predicate Fewer(c0: seq<int>, c: seq<int>, strict: bool)
  {
    ZeroSet(c) <= ZeroSet(c0) && (strict ==> ZeroSet(c) < ZeroSet(c0))
  }

  /** Changing only zero slots never creates a zero. */
  lemma FewerZeros(c0: seq<int>, c: seq<int>, strict: bool)
    requires OnlyZerosChanged(c0, c) && (strict ==> ZeroSet(c) < ZeroSet(c0))
    ensures Fewer(c0, c, strict)
  {
  }

  /** Every slot that was not 0 in `c0` is unchanged in `c`. */
  ghost predicate OnlyZerosChanged(c0: seq<int>, c: seq<int>)
  {
    |c0| == |c| && forall x :: 0 <= x < |c| && c0[x] != 0 ==> c[x] == c0[x]
  }

  /** One step of the search: column x stores row y. */
  predicate Step(m: Csc, n: nat, x: int, y: int)
    requires Shape(m, n)
  {
    0 <= x < n && 0 <= y < n && Stored(m, n, y, x)
  }

  /** A sequence of nodes, each a step from the one before. */
  ghost predicate Walk(m: Csc, n: nat, p: seq<int>)
    requires Shape(m, n)
  {
    && |p| > 0
    && (forall t :: 0 <= t < |p| ==> 0 <= p[t] < n)
    && (forall t :: 0 <= t < |p| - 1 ==> Step(m, n, p[t], p[t + 1]))
  }

  /** Some walk leads from x to y. */
  ghost predicate Connected(m: Csc, n: nat, x: int, y: int)
    requires Shape(m, n)
  {
    exists p :: Walk(m, n, p) && p[0] == x && p[|p| - 1] == y
  }

  /** Node x was unlabelled before the search (`o`) and is marked now (`c`). */
  ghost predicate Marked(o: seq<int>, c: seq<int>, x: int)
  {
    0 <= x < |o| && x < |c| && o[x] == 0 && c[x] != 0
  }

  /** A walk from j to x through marked nodes only. */
  ghost predicate ReachedIn(m: Csc, n: nat, o: seq<int>, c: seq<int>, j: int, x: int)
    requires Shape(m, n)
  {
    exists p :: Walk(m, n, p) && p[0] == j && p[|p| - 1] == x && forall t :: 0 <= t < |p| ==> Marked(o, c, p[t])
  }

  /** Every node the search from j has marked is reached from j. */
  ghost predicate AllReached(m: Csc, n: nat, o: seq<int>, c: seq<int>, j: int)
    requires Shape(m, n)
  {
    forall x :: Marked(o, c, x) ==> ReachedIn(m, n, o, c, j, x)
  }

  /** Every slot that differs between c0 and c is a row of column v. */
  ghost predicate ChangedIn(m: Csc, n: nat, c0: seq<int>, c: seq<int>, v: int)
    requires Shape(m, n)
  {
    |c0| == |c| && forall x :: 0 <= x < |c| && c[x] != c0[x] ==> Step(m, n, v, x)
  }

  lemma ChangedPush(m: Csc, n: nat, c0: seq<int>, c: seq<int>, v: int, k: int)
    requires Shape(m, n) && |c| == n && 0 <= v < n && m.ap[v] <= k < m.ap[v + 1]
    requires ChangedIn(m, n, c0, c, v)
    ensures ChangedIn(m, n, c0, c[m.ai[k] := -1], v)
  {
    assert ColRows(m, n, v)[k - m.ap[v]] == m.ai[k];
  }

  /** Marking more nodes keeps every walk through marked nodes. */
  lemma ReachGrows(m: Csc, n: nat, o: seq<int>, c: seq<int>, c': seq<int>, j: int, x: int)
    requires Shape(m, n) && |c| == |c'|
    requires forall y :: 0 <= y < |c| && c[y] != 0 ==> c'[y] != 0
    requires ReachedIn(m, n, o, c, j, x)
    ensures ReachedIn(m, n, o, c', j, x)
  {
    var p :| Walk(m, n, p) && p[0] == j && p[|p| - 1] == x && forall t :: 0 <= t < |p| ==> Marked(o, c, p[t]);
    assert forall t :: 0 <= t < |p| ==> Marked(o, c', p[t]);
  }

  /** Popping the start node or a pending node into island cnt keeps
      every marked node reached. */
  lemma PopReach(m: Csc, n: nat, o: seq<int>, c: seq<int>, j: int, v: int, cnt: int)
    requires Shape(m, n) && |c| == n && 0 <= v < n && 0 <= j < n && cnt != 0
    requires AllReached(m, n, o, c, j) && (c[v] != 0 || v == j)
    ensures AllReached(m, n, o, c[v := cnt], j)
  {
    var c' := c[v := cnt];
    forall x | Marked(o, c', x) ensures ReachedIn(m, n, o, c', j, x) {
      if Marked(o, c, x) {
        ReachGrows(m, n, o, c, c', j, x);
      } else {
        var p := [j];
        assert Walk(m, n, p) && forall t :: 0 <= t < |p| ==> Marked(o, c', p[t]);
      }
    }
  }

  /** The rows that the scan of a marked column v marks are reached through v. */
  lemma ScanReach(m: Csc, n: nat, o: seq<int>, c1: seq<int>, c2: seq<int>, j: int, v: int)
    requires Shape(m, n) && |c1| == n
    requires AllReached(m, n, o, c1, j) && Marked(o, c1, v)
    requires OnlyZerosChanged(c1, c2) && ChangedIn(m, n, c1, c2, v)
    ensures AllReached(m, n, o, c2, j)
  {
    forall x | Marked(o, c2, x) ensures ReachedIn(m, n, o, c2, j, x) {
      if c1[x] != 0 {
        ReachGrows(m, n, o, c1, c2, j, x);
      } else {
        ReachGrows(m, n, o, c1, c2, j, v);
        var p :| Walk(m, n, p) && p[0] == j && p[|p| - 1] == v && forall t :: 0 <= t < |p| ==> Marked(o, c2, p[t]);
        assert Walk(m, n, [v, x]);
        WalkAppend(m, n, p, [v, x]);
        var q := p + [v, x][1..];
        assert forall t :: 0 <= t < |q| ==> Marked(o, c2, q[t]);
        assert q[0] == j && q[|q| - 1] == x;
      }
    }
  }

  /** `mark_dfs`: labels with `cnt` every unlabelled node reachable from `j`.
      `stack` is the shared stack buffer of `n + 1` slots; `clique[x]` is 0
      for unvisited nodes, -1 for nodes waiting on the stack, and an island
      number otherwise. */
  method MarkDfs(m: Csc, n: nat, j: int, cnt: int, clique: array<int>, stack: array<int>)
    requires Shape(m, n) && clique.Length == n && stack.Length == n + 1 && clique != stack
    requires 0 <= j < n && clique[j] == 0 && cnt >= 1
    requires InRange(clique[..], 0, cnt - 1)
    requires Closed(m, n, clique[..], cnt)
    modifies clique, stack
    ensures clique[j] == cnt
    ensures InRange(clique[..], 0, cnt)
    ensures Joined(old(clique[..]), clique[..], cnt)
    ensures Closed(m, n, clique[..], cnt)
    // every node it labels is reached from j through nodes it labels
    ensures AllReached(m, n, old(clique[..]), clique[..], j)
  {
    ghost var o := clique[..];
    var sp := Push(stack, 0, j);
    while sp > 0
      invariant 0 <= sp <= n + 1
      invariant Searching(m, n, o, clique[..], stack[..sp], j, cnt)
      decreases ZeroSet(clique[..]), sp
    {
      sp := PopAndScan(m, n, o, j, cnt, clique, stack, sp);
    }
    Finish(o, clique[..], stack[..sp], cnt);
  }

  /** One round of `mark_dfs`'s outer loop: pops v, labels it `cnt` and
      pushes the unvisited rows of column v. */
  method PopAndScan(m: Csc, n: nat, ghost o: seq<int>, j: int, cnt: int, clique: array<int>, stack: array<int>, sp0: int)
    returns (sp: int)
    requires Shape(m, n) && clique.Length == n && stack.Length == n + 1 && clique != stack
    requires 0 <= j < n && cnt >= 1 && 0 < sp0 <= n + 1
    requires |o| == n && o[j] == 0 && InRange(o, 0, cnt - 1)
    requires Searching(m, n, o, clique[..], stack[..sp0], j, cnt)
    modifies clique, stack
    ensures 0 <= sp <= n + 1
    ensures Searching(m, n, o, clique[..], stack[..sp], j, cnt)
    ensures ZeroSet(clique[..]) < old(ZeroSet(clique[..])) ||
            (ZeroSet(clique[..]) == old(ZeroSet(clique[..])) && sp < sp0)
  {
    ghost var c := clique[..];
    ghost var s := stack[..sp0];
    PopSearch(m, n, o, c, s, j, cnt);
    var v;
    sp, v := Pop(stack, sp0);
    assert v == s[|s| - 1] && stack[..sp] == s[..|s| - 1];
    clique[v] := cnt;
    assert clique[..] == c[v := cnt];
    ghost var c1 := clique[..];
    ghost var sp1 := sp;
    sp := ScanColumn(m, n, o, v, cnt, clique, stack, sp);
    ScanSearch(m, n, o, c1, clique[..], stack[..sp], j, cnt, v);
    assert sp > sp1 ==> ZeroSet(clique[..]) < ZeroSet(c);
  }

  /** The state of `mark_dfs`'s outer loop: the stack holds the start node
      or the pending nodes, labels are kept, and every marked node is
      reached from j. */
  ghost predicate Searching(m: Csc, n: nat, o: seq<int>, c: seq<int>, s: seq<int>, j: int, cnt: int)
    requires Shape(m, n) && |c| == n && 0 <= j < n
  {
    && Pending(s, c) && (c[j] == cnt || s == [j]) && (s == [j] || StackOk(s, c))
    && Labelled(m, n, o, c, cnt) && AllReached(m, n, o, c, j)
  }

  /** Popping v and labelling it `cnt` sets up the scan of column v. */
  lemma PopSearch(m: Csc, n: nat, o: seq<int>, c: seq<int>, s: seq<int>, j: int, cnt: int)
    requires Shape(m, n) && |c| == n && 0 <= j < n && cnt >= 1 && |s| >= 1
    requires |o| == n && o[j] == 0 && InRange(o, 0, cnt - 1)
    requires Searching(m, n, o, c, s, j, cnt)
    ensures 0 <= s[|s| - 1] < n
    ensures StackOk(s[..|s| - 1], c[s[|s| - 1] := cnt])
    ensures Kept(o, c[s[|s| - 1] := cnt], cnt) && InRange(c[s[|s| - 1] := cnt], -1, cnt)
    ensures ClosedBut(m, n, c[s[|s| - 1] := cnt], cnt, s[|s| - 1])
    ensures ZeroSet(c[s[|s| - 1] := cnt]) <= ZeroSet(c)
    ensures AllReached(m, n, o, c[s[|s| - 1] := cnt], j) && Marked(o, c[s[|s| - 1] := cnt], s[|s| - 1])
    ensures c[s[|s| - 1] := cnt][j] == cnt
  {
    PopStep(m, n, o, c, s, cnt);
    var v := s[|s| - 1];
    assert v == j || c[v] == -1;
    PopReach(m, n, o, c, j, v, cnt);
  }

  /** After the scan of marked column v the outer loop state holds again. */
  lemma ScanSearch(m: Csc, n: nat, o: seq<int>, c1: seq<int>, c2: seq<int>, s2: seq<int>, j: int, cnt: int, v: int)
    requires Shape(m, n) && |c1| == n && |c2| == n && 0 <= j < n && c1[j] == cnt && cnt >= 1
    requires AllReached(m, n, o, c1, j) && Marked(o, c1, v)
    requires OnlyZerosChanged(c1, c2) && ChangedIn(m, n, c1, c2, v)
    requires StackOk(s2, c2) && Labelled(m, n, o, c2, cnt)
    ensures Searching(m, n, o, c2, s2, j, cnt)
  {
    ScanReach(m, n, o, c1, c2, j, v);
  }

  /** Node x is the lowest node of island c. */
  ghost predicate IslandRoot(labels: seq<int>, x: int, c: int)
  {
    0 <= x < |labels| && labels[x] == c && forall y :: 0 <= y < x ==> labels[y] < c
  }

  /** Island c is in use, and every lower node belongs to a lower island. */
  ghost predicate HasRoot(labels: seq<int>, c: int)
  {
    exists x :: IslandRoot(labels, x, c)
  }

  /** The island labelling of `FindIslands`: `labels[x]` is the island of
      node x and `cnt` the number of islands. */
  method Label(m: Csc, n: nat) returns (labels: seq<int>, cnt: int)
    requires Shape(m, n)
    ensures |labels| == n && 0 <= cnt <= n
    ensures forall x :: 0 <= x < n ==> 1 <= labels[x] <= cnt
    // islands are numbered in the order of their lowest node
    ensures forall c :: 1 <= c <= cnt ==> HasRoot(labels, c)
    // the search follows each column to its stored rows
    ensures forall x, k :: Edge(m, n, x, k) ==> labels[m.ai[k]] <= labels[x]
    // every node is reached from the root of its island within the island
    ensures forall x :: 0 <= x < n ==> ReachedFromRoot(m, n, labels, x)
  {
    var clique := new int[n];
    var stack := new int[n + 1];
    var j := 0;
    while j < n
      invariant 0 <= j <= n
      invariant forall x :: 0 <= x < j ==> clique[x] == 0
    {
      clique[j] := 0;
      j := j + 1;
    }
    cnt := 0;
    ghost var roots: seq<int> := [];
    NoneOpened(m, n, clique[..]);
    j := 0;
    while j < n
      invariant Opened(m, n, clique[..], roots, j, cnt)
    {
      cnt, roots := VisitNode(m, n, j, cnt, clique, stack, roots);
      j := j + 1;
    }
    LabelsDone(m, n, clique[..], roots, cnt);
    RootsReach(m, n, clique[..], roots, cnt);
    labels := clique[..];
  }

  /** One round of `FindIslands`'s loop: an unvisited node j opens island
      cnt + 1, which `mark_dfs` fills; a visited one is passed over. */
  method VisitNode(m: Csc, n: nat, j: int, cnt0: int, clique: array<int>, stack: array<int>, ghost roots0: seq<int>)
    returns (cnt: int, ghost roots: seq<int>)
    requires Shape(m, n) && clique.Length == n && stack.Length == n + 1 && clique != stack && 0 <= j < n
    requires Opened(m, n, clique[..], roots0, j, cnt0)
    modifies clique, stack
    ensures cnt == (if old(clique[j]) == 0 then cnt0 + 1 else cnt0)
    ensures Opened(m, n, clique[..], roots, j + 1, cnt)
  {
    cnt, roots := cnt0, roots0;
    if clique[j] == 0 {
      ghost var prev := clique[..];
      ReadyToOpen(m, n, prev, roots, j, cnt);
      cnt := cnt + 1;
      MarkDfs(m, n, j, cnt, clique, stack);
      OpenIsland(m, n, prev, clique[..], roots, j, cnt);
      roots := roots + [j];
    } else {
      NextNode(m, n, clique[..], roots, j, cnt);
    }
  }

  /** The state of `FindIslands`'s loop before node j: nodes below j are
      labelled, island c + 1 was opened at `roots[c]`, the labelling is
      closed, and every labelled node is reached from its island's root. */
  ghost predicate Opened(m: Csc, n: nat, c: seq<int>, roots: seq<int>, j: int, cnt: int)
    requires Shape(m, n) && |c| == n
  {
    && 0 <= j <= n && 0 <= cnt <= j && |roots| == cnt
    && InRange(c, 0, cnt) && (forall x :: 0 <= x < j ==> c[x] >= 1)
    && Closed(m, n, c, cnt)
    && (forall i :: 0 <= i < cnt ==> roots[i] < j && IslandRoot(c, roots[i], i + 1))
    && Rooted(m, n, c, roots)
  }

  lemma NoneOpened(m: Csc, n: nat, c: seq<int>)
    requires Shape(m, n) && |c| == n && forall x :: 0 <= x < n ==> c[x] == 0
    ensures Opened(m, n, c, [], 0, 0)
  {
  }

  /** An unlabelled node j can start island cnt + 1. */
  lemma ReadyToOpen(m: Csc, n: nat, c: seq<int>, roots: seq<int>, j: int, cnt: int)
    requires Shape(m, n) && |c| == n && j < n && Opened(m, n, c, roots, j, cnt) && c[j] == 0
    ensures InRange(c, 0, cnt) && Closed(m, n, c, cnt + 1)
  {
  }

  /** A node already labelled is passed over. */
  lemma NextNode(m: Csc, n: nat, c: seq<int>, roots: seq<int>, j: int, cnt: int)
    requires Shape(m, n) && |c| == n && j < n && Opened(m, n, c, roots, j, cnt) && c[j] != 0
    ensures Opened(m, n, c, roots, j + 1, cnt)
  {
  }

  /** At the end of the loop every node is labelled. */
  lemma LabelsDone(m: Csc, n: nat, labels: seq<int>, roots: seq<int>, cnt: int)
    requires Shape(m, n) && |labels| == n && Opened(m, n, labels, roots, n, cnt)
    ensures forall x :: 0 <= x < n ==> 1 <= labels[x] <= cnt
    ensures forall c :: 1 <= c <= cnt ==> HasRoot(labels, c)
    ensures forall x, k :: Edge(m, n, x, k) ==> labels[m.ai[k]] <= labels[x]
  {
    forall c | 1 <= c <= cnt ensures HasRoot(labels, c) {
      assert IslandRoot(labels, roots[c - 1], c);
    }
  }

  lemma RootsReach(m: Csc, n: nat, labels: seq<int>, roots: seq<int>, cnt: int)
    requires Shape(m, n) && |labels| == n && Opened(m, n, labels, roots, n, cnt)
    ensures forall x :: 0 <= x < n ==> ReachedFromRoot(m, n, labels, x)
  {
    forall x | 0 <= x < n ensures ReachedFromRoot(m, n, labels, x) {
      assert IslandRoot(labels, roots[labels[x] - 1], labels[x]);
    }
  }

  /** Island cnt, opened at j by one `mark_dfs`: j is its root, the roots
      of the earlier islands stay roots, and every node keeps a walk from
      its island's root. */
  lemma OpenIsland(m: Csc, n: nat, prev: seq<int>, c: seq<int>, roots: seq<int>, j: int, cnt: int)
    requires Shape(m, n) && |prev| == n && |c| == n && 0 <= j < n && cnt >= 1
    requires Opened(m, n, prev, roots, j, cnt - 1) && prev[j] == 0
    requires c[j] == cnt && InRange(c, 0, cnt) && Closed(m, n, c, cnt)
    requires Joined(prev, c, cnt)
    requires AllReached(m, n, prev, c, j)
    ensures Opened(m, n, c, roots + [j], j + 1, cnt)
  {
    RootsKept(prev, c, roots, j, cnt);
    IslandWalks(m, n, prev, c, roots, j, cnt);
  }

  /** Opening island cnt at j keeps the lowest node of every earlier island,
      and makes j the lowest node of the new one. */
  lemma RootsKept(prev: seq<int>, c: seq<int>, roots: seq<int>, j: int, cnt: int)
    requires |c| == |prev| && 0 <= j < |c| && cnt >= 1 && |roots| == cnt - 1
    requires forall i :: 0 <= i < cnt - 1 ==> roots[i] < j && IslandRoot(prev, roots[i], i + 1)
    requires forall x :: 0 <= x < j ==> prev[x] >= 1
    requires InRange(prev, 0, cnt - 1) && prev[j] == 0
    requires c[j] == cnt && Joined(prev, c, cnt)
    ensures forall i :: 0 <= i < cnt ==> (roots + [j])[i] < j + 1 && IslandRoot(c, (roots + [j])[i], i + 1)
    ensures forall x :: 0 <= x < j + 1 ==> c[x] >= 1
  {
    forall i | 0 <= i < cnt - 1
      ensures IslandRoot(c, roots[i], i + 1)
    {
      assert IslandRoot(prev, roots[i], i + 1);
      forall y | 0 <= y < roots[i] ensures c[y] < i + 1 {
        assert prev[y] >= 1;
      }
    }
    forall y | 0 <= y < j ensures c[y] < cnt {
      assert prev[y] >= 1;
    }
    assert IslandRoot(c, j, cnt);
    forall i | 0 <= i < cnt ensures (roots + [j])[i] < j + 1 && IslandRoot(c, (roots + [j])[i], i + 1) {
      if i < cnt - 1 {
        assert (roots + [j])[i] == roots[i];
      }
    }
  }

  /** A walk from r to x that stays on the island of x. */
  ghost predicate WalkFrom(m: Csc, n: nat, labels: seq<int>, r: int, x: int)
    requires Shape(m, n) && |labels| == n && 0 <= x < n
  {
    exists p :: Walk(m, n, p) && p[0] == r && p[|p| - 1] == x && forall t :: 0 <= t < |p| ==> labels[p[t]] == labels[x]
  }

  /** Node x is reached, within its island, from that island's root. */
  ghost predicate ReachedFromRoot(m: Csc, n: nat, labels: seq<int>, x: int)
    requires Shape(m, n) && |labels| == n && 0 <= x < n
  {
    exists r :: IslandRoot(labels, r, labels[x]) && WalkFrom(m, n, labels, r, x)
  }

  /** Every labelled node is reached within its island from the node that
      opened it: `roots[c - 1]` for island c. */
  ghost predicate Rooted(m: Csc, n: nat, c: seq<int>, roots: seq<int>)
    requires Shape(m, n) && |c| == n
  {
    forall x :: 0 <= x < n && c[x] >= 1 ==> c[x] - 1 < |roots| && WalkFrom(m, n, c, roots[c[x] - 1], x)
  }

  /** One `mark_dfs` from j into island cnt keeps the old islands' walks
      and gives every node of the new island a walk from j. */
  lemma IslandWalks(m: Csc, n: nat, prev: seq<int>, c: seq<int>, roots: seq<int>, j: int, cnt: int)
    requires Shape(m, n) && |prev| == n && |c| == n && 0 <= j < n && cnt >= 1 && |roots| == cnt - 1
    requires InRange(prev, 0, cnt - 1)
    requires Joined(prev, c, cnt)
    requires Rooted(m, n, prev, roots) && AllReached(m, n, prev, c, j)
    ensures Rooted(m, n, c, roots + [j])
  {
    forall x | 0 <= x < n && c[x] >= 1
      ensures c[x] - 1 < |roots + [j]| && WalkFrom(m, n, c, (roots + [j])[c[x] - 1], x)
    {
      if prev[x] >= 1 {
        OldIslandWalk(m, n, prev, c, roots, j, cnt, x);
      } else {
        NewIslandWalk(m, n, prev, c, j, cnt, x);
        assert (roots + [j])[c[x] - 1] == j;
      }
    }
  }

  lemma OldIslandWalk(m: Csc, n: nat, prev: seq<int>, c: seq<int>, roots: seq<int>, j: int, cnt: int, x: int)
    requires Shape(m, n) && |prev| == n && |c| == n && |roots| == cnt - 1
    requires InRange(prev, 0, cnt - 1) && 0 <= x < n && prev[x] >= 1
    requires Joined(prev, c, cnt)
    requires Rooted(m, n, prev, roots)
    ensures c[x] - 1 < |roots + [j]| && WalkFrom(m, n, c, (roots + [j])[c[x] - 1], x)
  {
    assert WalkFrom(m, n, prev, roots[prev[x] - 1], x);
    var p :| Walk(m, n, p) && p[0] == roots[prev[x] - 1] && p[|p| - 1] == x &&
             forall t :: 0 <= t < |p| ==> prev[p[t]] == prev[x];
    assert forall t :: 0 <= t < |p| ==> c[p[t]] == c[x];
    assert (roots + [j])[c[x] - 1] == roots[prev[x] - 1];
  }

  lemma NewIslandWalk(m: Csc, n: nat, prev: seq<int>, c: seq<int>, j: int, cnt: int, x: int)
    requires Shape(m, n) && |prev| == n && |c| == n && cnt >= 1
    requires InRange(prev, 0, cnt - 1) && 0 <= x < n && prev[x] < 1 && c[x] >= 1
    requires Joined(prev, c, cnt)
    requires AllReached(m, n, prev, c, j)
    ensures c[x] == cnt && WalkFrom(m, n, c, j, x)
  {
    assert Marked(prev, c, x);
    var p :| Walk(m, n, p) && p[0] == j && p[|p| - 1] == x && forall t :: 0 <= t < |p| ==> Marked(prev, c, p[t]);
    assert forall t :: 0 <= t < |p| ==> c[p[t]] == cnt;
  }

  /** Two walks that meet end to start make one. */
  lemma WalkAppend(m: Csc, n: nat, p: seq<int>, q: seq<int>)
    requires Shape(m, n) && Walk(m, n, p) && Walk(m, n, q) && p[|p| - 1] == q[0]
    ensures Walk(m, n, p + q[1..])
  {
    var w := p + q[1..];
    forall t | 0 <= t < |w| - 1 ensures Step(m, n, w[t], w[t + 1]) {
      if t < |p| - 1 {
        assert w[t] == p[t] && w[t + 1] == p[t + 1];
      } else {
        assert w[t] == q[t - |p| + 1] && w[t + 1] == q[t - |p| + 2];
      }
    }
  }

  function Reverse(p: seq<int>): seq<int>
  {
    seq(|p|, t requires 0 <= t < |p| => p[|p| - 1 - t])
  }

  /** On a symmetric pattern a walk can be taken backwards. */
  lemma WalkReverse(m: Csc, n: nat, p: seq<int>)
    requires Shape(m, n) && SymmetricPattern(m, n) && Walk(m, n, p)
    ensures Walk(m, n, Reverse(p)) && Reverse(p)[0] == p[|p| - 1] && Reverse(p)[|p| - 1] == p[0]
  {
    var w := Reverse(p);
    forall t | 0 <= t < |w| - 1 ensures Step(m, n, w[t], w[t + 1]) {
      var u := |p| - 2 - t;
      assert Step(m, n, p[u], p[u + 1]);
      assert w[t] == p[u + 1] && w[t + 1] == p[u];
    }
  }

  /** On a symmetric, closed labelling a walk never leaves its island. */
  lemma {:induction false} WalkSameLabel(m: Csc, n: nat, labels: seq<int>, p: seq<int>)
    requires Shape(m, n) && |labels| == n && SymmetricPattern(m, n)
    requires forall x, k :: Edge(m, n, x, k) ==> labels[m.ai[k]] <= labels[x]
    requires Walk(m, n, p)
    decreases |p|
    ensures labels[p[|p| - 1]] == labels[p[0]]
  {
    if |p| > 1 {
      var front := p[..|p| - 1];
      forall t | 0 <= t < |front| - 1 ensures Step(m, n, front[t], front[t + 1]) {
        assert front[t] == p[t] && front[t + 1] == p[t + 1];
      }
      WalkSameLabel(m, n, labels, front);
      assert Step(m, n, p[|p| - 2], p[|p| - 1]);
      SameIsland(m, n, labels, p[|p| - 1], p[|p| - 2]);
    }
  }

  /** `FindIslands` counts the connected components: on a symmetric pattern,
      two nodes carry the same island number exactly when a walk joins them. */
  lemma IslandsAreComponents(m: Csc, n: nat, labels: seq<int>, x: int, y: int)
    requires Shape(m, n) && |labels| == n && SymmetricPattern(m, n)
    requires forall x, k :: Edge(m, n, x, k) ==> labels[m.ai[k]] <= labels[x]
    requires forall x :: 0 <= x < n ==> ReachedFromRoot(m, n, labels, x)
    requires 0 <= x < n && 0 <= y < n
    ensures labels[x] == labels[y] <==> Connected(m, n, x, y)
  {
    if Connected(m, n, x, y) {
      var p :| Walk(m, n, p) && p[0] == x && p[|p| - 1] == y;
      WalkSameLabel(m, n, labels, p);
    }
    if labels[x] == labels[y] {
      SameRootConnected(m, n, labels, x, y);
    }
  }

  /** Two nodes of one island are joined through the island's root. */
  lemma SameRootConnected(m: Csc, n: nat, labels: seq<int>, x: int, y: int)
    requires Shape(m, n) && |labels| == n && SymmetricPattern(m, n)
    requires 0 <= x < n && 0 <= y < n && labels[x] == labels[y]
    requires ReachedFromRoot(m, n, labels, x) && ReachedFromRoot(m, n, labels, y)
    ensures Connected(m, n, x, y)
  {
    var r :| IslandRoot(labels, r, labels[x]) && WalkFrom(m, n, labels, r, x);
    var r' :| IslandRoot(labels, r', labels[y]) && WalkFrom(m, n, labels, r', y);
    assert r == r';
    var p :| Walk(m, n, p) && p[0] == r && p[|p| - 1] == x && forall t :: 0 <= t < |p| ==> labels[p[t]] == labels[x];
    var q :| Walk(m, n, q) && q[0] == r && q[|q| - 1] == y && forall t :: 0 <= t < |q| ==> labels[q[t]] == labels[y];
    WalkReverse(m, n, p);
    WalkAppend(m, n, Reverse(p), q);
    var w := Reverse(p) + q[1..];
    assert w[0] == x && w[|w| - 1] == y;
  }

  /** Islands are opened in node order, so node 0 always lies on island 1. */
  lemma FirstNodeFirstIsland(labels: seq<int>, cnt: int)
    requires |labels| > 0
    requires forall x :: 0 <= x < |labels| ==> 1 <= labels[x] <= cnt
    requires forall c :: 1 <= c <= cnt ==> HasRoot(labels, c)
    ensures labels[0] == 1
  {
    assert HasRoot(labels, 1);
    var x :| IslandRoot(labels, x, 1);
    assert labels[0] >= 1;
    assert x == 0;
  }

  /** A pattern that stores (c, r) whenever it stores (r, c), as the
      admittance-style matrices of this system are. */
  predicate SymmetricPattern(m: Csc, n: nat)
    requires Shape(m, n)
  {
    forall r, c :: 0 <= r < n && 0 <= c < n && Stored(m, n, r, c) ==> Stored(m, n, c, r)
  }

  /** A stored entry (r, c) is an edge out of column c. */
  lemma EdgeOfStored(m: Csc, n: nat, r: int, c: int) returns (k: int)
    requires Shape(m, n) && 0 <= r < n && 0 <= c < n && Stored(m, n, r, c)
    ensures Edge(m, n, c, k) && m.ai[k] == r
  {
    var q :| 0 <= q < |ColRows(m, n, c)| && ColRows(m, n, c)[q] == r;
    k := m.ap[c] + q;
  }

  /** On a symmetric pattern the two ends of every stored entry lie on the
      same island. */
  lemma SameIsland(m: Csc, n: nat, labels: seq<int>, r: int, c: int)
    requires Shape(m, n) && |labels| == n && SymmetricPattern(m, n)
    requires forall x, k :: Edge(m, n, x, k) ==> labels[m.ai[k]] <= labels[x]
    requires 0 <= r < n && 0 <= c < n && Stored(m, n, r, c)
    ensures labels[r] == labels[c]
  {
    var k := EdgeOfStored(m, n, r, c);
    var k' := EdgeOfStored(m, n, c, r);
    assert labels[m.ai[k]] <= labels[c] && labels[m.ai[k']] <= labels[r];
  }
}

/** The reference-counted persistent stack (tregex.c:48-134). Nodes and stack
    headers live in pool blocks; a node links to its `parent`, its first child
    (`left`) and its next sibling (`right`). A stack handle is the index of a
    header block holding `(root, top)`; the logical stack it denotes is the
    `idx` values on the path from just below `root` down to `top`.

    Invariant: the `count` of every live node equals the number of live
    blocks that point up at it, namely the headers whose top it is and its
    children. */
module PersistentStack {
  import opened Layout
  import opened BlockPool

  /** The node a block points up at: a node's parent, a header's top. */
  function UpRef(blk: Block): int
  {
    match blk
    case Node(parent, _, _, _, _) => parent
    case Header(_, top) => top
    case Raw => -1
  }

  /** The whole state of the stacks in one pool, as values: the raw blocks,
      the pool's free map, and ghost bookkeeping (each node's sibling chain,
      each node's depth, each header's path from its root to its top, and the
      logical stack of each live header). */
  datatype Space = Space(
    raw: seq<Block>,
    free: seq<bool>,
    kids: seq<seq<int>>,
    depth: seq<nat>,
    paths: seq<seq<int>>,
    stacks: map<int, seq<int>>)

  ghost predicate Sized(s: Space)
  {
    && |s.raw| == BlockCount && |s.free| == BlockCount && |s.kids| == BlockCount
    && |s.depth| == BlockCount && |s.paths| == BlockCount
  }

  ghost predicate IsNode(s: Space, b: int)
  {
    Sized(s) && 0 <= b < BlockCount && !s.free[b] && s.raw[b].Node?
  }

  ghost predicate IsHeader(s: Space, b: int)
  {
    Sized(s) && 0 <= b < BlockCount && !s.free[b] && s.raw[b].Header?
  }

  /** For every block, the node it points up at (-1 for a free block). */
  ghost function Ups(s: Space): (u: seq<int>)
    requires Sized(s)
    ensures |u| == BlockCount
  {
    seq(BlockCount, b requires 0 <= b < BlockCount => if s.free[b] then -1 else UpRef(s.raw[b]))
  }

  /** Number of live blocks pointing up at `n`. */
  ghost function Occ(s: Space, n: int): nat
    requires Sized(s)
  {
    multiset(Ups(s))[n]
  }

  /** The sibling after position `i` of a chain, -1 after the last one. */
  function NextKid(ks: seq<int>, i: int): int
    requires 0 <= i < |ks|
  {
    if i + 1 < |ks| then ks[i + 1] else -1
  }

  /** The sibling chain of node `n` is `kids[n]`: `left` starts it, each
      `right` follows it, it ends in -1, it lists distinct children of `n`. */
  ghost predicate ChainOk(s: Space, n: int)
    requires IsNode(s, n)
  {
    var ks := s.kids[n];
    && s.raw[n].left == (if ks == [] then -1 else ks[0])
    && (forall i :: 0 <= i < |ks| ==> IsNode(s, ks[i]) && s.raw[ks[i]].parent == n)
    && (forall i {:trigger NextKid(ks, i)} :: 0 <= i < |ks| ==> s.raw[ks[i]].right == NextKid(ks, i))
    && (forall i, j :: 0 <= i < j < |ks| ==> ks[i] != ks[j])
  }

  ghost predicate NodeOk(s: Space, n: int)
    requires IsNode(s, n)
  {
    var nd := s.raw[n];
    && (nd.parent == -1 ==> nd.idx == -1)
    && (nd.parent != -1 ==>
          IsNode(s, nd.parent) && n in s.kids[nd.parent] && s.depth[n] == s.depth[nd.parent] + 1)
    && ChainOk(s, n)
    && nd.count == Occ(s, n)
  }

  /** `p` runs from a root node down a parent chain. */
  ghost predicate PathOk(s: Space, p: seq<int>)
  {
    && |p| >= 1
    && (forall i :: 0 <= i < |p| ==> IsNode(s, p[i]))
    && s.raw[p[0]].parent == -1
    && (forall i :: 0 < i < |p| ==> s.raw[p[i]].parent == p[i - 1])
  }

  /** The values stored on a path, below its root. */
  ghost function Values(s: Space, p: seq<int>): (vs: seq<int>)
    requires PathOk(s, p)
    ensures |vs| == |p| - 1
  {
    seq(|p| - 1, i requires 0 <= i < |p| - 1 => s.raw[p[i + 1]].idx)
  }

  ghost predicate HeaderOk(s: Space, h: int)
    requires IsHeader(s, h)
  {
    var p := s.paths[h];
    && PathOk(s, p)
    && p[0] == s.raw[h].root
    && p[|p| - 1] == s.raw[h].top
    && h in s.stacks
    && s.stacks[h] == Values(s, p)
  }

  ghost predicate Inv(s: Space)
  {
    && Sized(s)
    && (forall n {:trigger NodeOk(s, n)} :: IsNode(s, n) ==> NodeOk(s, n))
    && (forall h {:trigger HeaderOk(s, h)} :: IsHeader(s, h) ==> HeaderOk(s, h))
    && (forall h :: h in s.stacks <==> IsHeader(s, h))
  }

  // ---- counting lemmas ----

  /** Two distinct entries equal to `x` make its multiplicity at least 2. */
  lemma {:induction false} TwoEntries(u: seq<int>, i: int, j: int, x: int)
    requires 0 <= i < j < |u| && u[i] == x && u[j] == x
    ensures multiset(u)[x] >= 2
  {
    assert u == u[..j] + u[j..];
    assert u[..j][i] == x;
    assert u[j..][0] == x;
  }

  /** A value no entry holds has multiplicity 0. */
  lemma NoEntry(u: seq<int>, x: int)
    requires forall b :: 0 <= b < |u| ==> u[b] != x
    ensures multiset(u)[x] == 0
  {
    assert x !in u;
  }

  // ---- facts that follow from the invariant ----

  lemma TopIsNode(s: Space, h: int)
    requires Inv(s) && IsHeader(s, h)
    ensures IsNode(s, s.raw[h].top) && IsNode(s, s.raw[h].root)
    ensures s.raw[s.raw[h].root].parent == -1
    ensures h in s.stacks
  {
    assert HeaderOk(s, h);
    var p := s.paths[h];
    assert IsNode(s, p[|p| - 1]) && IsNode(s, p[0]);
  }

  /** Every live block points up at a live node or at nothing. */
  lemma UpsAreLive(s: Space, b: int)
    requires Inv(s) && 0 <= b < BlockCount
    ensures Ups(s)[b] == -1 || IsNode(s, Ups(s)[b])
  {
    if !s.free[b] && s.raw[b].Node? {
      assert NodeOk(s, b);
    } else if !s.free[b] && s.raw[b].Header? {
      TopIsNode(s, b);
    }
  }

  /** Nothing points up at a free block. */
  lemma FreeUnreferenced(s: Space, n: int)
    requires Inv(s) && 0 <= n < BlockCount && s.free[n]
    ensures Occ(s, n) == 0
  {
    forall b | 0 <= b < BlockCount
      ensures Ups(s)[b] != n
    {
      UpsAreLive(s, b);
    }
    NoEntry(Ups(s), n);
  }

  /** A path whose nodes keep their liveness, parents and values in `s'`
      still reads the same stack. */
  lemma PathKept(s: Space, s': Space, p: seq<int>)
    requires PathOk(s, p) && Sized(s')
    requires forall i :: 0 <= i < |p| ==>
      IsNode(s', p[i]) && s'.raw[p[i]].parent == s.raw[p[i]].parent && s'.raw[p[i]].idx == s.raw[p[i]].idx
    ensures PathOk(s', p) && Values(s', p) == Values(s, p)
  {
  }

  /** A sibling chain survives when its owner's first-child link and each
      child's parent and sibling links survive. */
  lemma ChainKept(s: Space, s': Space, x: int)
    requires IsNode(s, x) && ChainOk(s, x) && IsNode(s', x)
    requires s'.kids[x] == s.kids[x] && s'.raw[x].left == s.raw[x].left
    requires forall k :: k in s.kids[x] ==>
      IsNode(s', k) && s'.raw[k].parent == s.raw[k].parent && s'.raw[k].right == s.raw[k].right
    ensures ChainOk(s', x)
  {
    var ks := s.kids[x];
    forall i | 0 <= i < |ks|
      ensures IsNode(s', ks[i]) && s'.raw[ks[i]].parent == x
      ensures s'.raw[ks[i]].right == NextKid(ks, i)
    {
      assert ks[i] in ks;
    }
  }

  // ---- block field updates that leave other fields as they are ----

  function WithLeft(b: Block, l: int): Block
  {
    if b.Node? then b.(left := l) else b
  }

  function WithRight(b: Block, r: int): Block
  {
    if b.Node? then b.(right := r) else b
  }

  function WithCount(b: Block, c: int): Block
  {
    if b.Node? then b.(count := c) else b
  }

  function WithTop(b: Block, t: int): Block
  {
    if b.Header? then b.(top := t) else b
  }

  // ---- push (tregex.c:70-87) ----

  /** The state after pushing `v` onto the stack of header `h`, the new node
      taking free block `n`: the node is linked after the last child of the
      old top and becomes the top. */
  ghost function Pushed(s: Space, h: int, n: int, v: int): Space
    requires Inv(s) && IsHeader(s, h) && 0 <= n < BlockCount
  {
    assert HeaderOk(s, h);
    TopIsNode(s, h);
    var t := s.raw[h].top;
    assert NodeOk(s, t);
    var ks := s.kids[t];
    var raw1 := s.raw[n := Node(t, -1, -1, v, 1)];
    var raw2 :=
      if ks == [] then raw1[t := WithLeft(raw1[t], n)]
      else raw1[ks[|ks| - 1] := WithRight(raw1[ks[|ks| - 1]], n)];
    Space(raw2[h := WithTop(raw2[h], n)], s.free[n := false],
          s.kids[t := ks + [n]][n := []], s.depth[n := s.depth[t] + 1],
          s.paths[h := s.paths[h] + [n]], s.stacks[h := s.stacks[h] + [v]])
  }

  /** The last child of node `t`, or `t` itself when it has none. */
  ghost function LastKid(s: Space, t: int): int
    requires Sized(s) && 0 <= t < BlockCount
  {
    var ks := s.kids[t];
    if ks == [] then t else ks[|ks| - 1]
  }

  /** What `Pushed` changes, block by block: block `n` becomes a leaf child of
      the old top `t`, `t`'s first-child link or its last child's sibling link
      reaches `n`, header `h` moves its top to `n`; nothing else changes. */
  ghost predicate PushStep(s: Space, s': Space, h: int, n: int, v: int)
    requires Inv(s) && IsHeader(s, h) && IsNode(s, s.raw[h].top) && 0 <= n < BlockCount
  {
    var t := s.raw[h].top;
    var last := LastKid(s, t);
    && Sized(s') && s.free[n]
    && s'.raw[n] == Node(t, -1, -1, v, 1) && !s'.free[n]
    && s'.kids[n] == [] && s'.depth[n] == s.depth[t] + 1
    && s'.raw[h] == Header(s.raw[h].root, n)
    && s'.kids[t] == s.kids[t] + [n]
    && s'.paths[h] == s.paths[h] + [n]
    && s'.stacks == s.stacks[h := s.stacks[h] + [v]]
    && (s.kids[t] == [] ==> s'.raw[t] == s.raw[t].(left := n))
    && (s.kids[t] != [] ==>
          IsNode(s, last) && last != t && s'.raw[last] == s.raw[last].(right := n) && s'.raw[t] == s.raw[t])
    && Ups(s') == Ups(s)[n := t][h := n]
    && (forall b :: 0 <= b < BlockCount && b != n ==> s'.free[b] == s.free[b] && s'.depth[b] == s.depth[b])
    && (forall b :: 0 <= b < BlockCount && b != n && b != t && b != last && b != h ==> s'.raw[b] == s.raw[b])
    && (forall b :: 0 <= b < BlockCount && b != n && b != h ==>
          && s'.raw[b].Node? == s.raw[b].Node? && s'.raw[b].Header? == s.raw[b].Header?
          && (s.raw[b].Node? ==>
                s'.raw[b].parent == s.raw[b].parent && s'.raw[b].idx == s.raw[b].idx
                && s'.raw[b].count == s.raw[b].count))
    && (forall b :: 0 <= b < BlockCount && b != n && b != t ==> s'.kids[b] == s.kids[b])
    && (forall b :: 0 <= b < BlockCount && b != h ==> s'.paths[b] == s.paths[b])
  }

  lemma PushFacts(s: Space, h: int, n: int, v: int)
    requires Inv(s) && IsHeader(s, h) && IsNode(s, s.raw[h].top) && 0 <= n < BlockCount && s.free[n]
    ensures PushStep(s, Pushed(s, h, n, v), h, n, v)
  {
    assert HeaderOk(s, h);
    TopIsNode(s, h);
    var t := s.raw[h].top;
    assert NodeOk(s, t);
    var ks := s.kids[t];
    if ks != [] {
      assert IsNode(s, ks[|ks| - 1]) && NodeOk(s, ks[|ks| - 1]);
    }
    var s' := Pushed(s, h, n, v);
    forall b | 0 <= b < BlockCount
      ensures Ups(s')[b] == Ups(s)[n := t][h := n][b]
    {
    }
    var last := LastKid(s, t);
    forall b | 0 <= b < BlockCount && b != n && b != h
      ensures s'.raw[b].Node? == s.raw[b].Node? && s'.raw[b].Header? == s.raw[b].Header?
      ensures s.raw[b].Node? ==>
        s'.raw[b].parent == s.raw[b].parent && s'.raw[b].idx == s.raw[b].idx && s'.raw[b].count == s.raw[b].count
    {
      if b == t || b == last {
        assert s.raw[b].Node?;
      }
    }
  }

  lemma PushTopOk(s: Space, s': Space, h: int, n: int, v: int)
    requires Inv(s) && IsHeader(s, h) && IsNode(s, s.raw[h].top) && 0 <= n < BlockCount
    requires PushStep(s, s', h, n, v)
    ensures NodeOk(s', s.raw[h].top)
  {
    var t := s.raw[h].top;
    var ks := s.kids[t];
    var last := LastKid(s, t);
    FreeUnreferenced(s, n);
    assert NodeOk(s, t);
    assert Occ(s', t) == Occ(s, t);
    var ks' := s'.kids[t];
    forall i | 0 <= i < |ks'|
      ensures IsNode(s', ks'[i]) && s'.raw[ks'[i]].parent == t
      ensures s'.raw[ks'[i]].right == NextKid(ks', i)
    {
      if i < |ks| - 1 {
        assert NodeOk(s, ks[i]);
        assert ks[i] != ks[|ks| - 1];
        assert s'.raw[ks[i]] == s.raw[ks[i]];
        assert s.raw[ks[i]].right == NextKid(ks, i);
      } else if i == |ks| - 1 {
        assert ks[i] == last;
      }
    }
    if ks == [] {
      assert s'.raw[t].left == n;
    } else {
      assert t != n && t != h && t != last;
      assert s'.raw[t] == s.raw[t];
      assert ks'[0] == ks[0];
    }
    assert ChainOk(s', t);
    var pt := s.raw[t].parent;
    if pt != -1 {
      assert t in s'.kids[pt];
    }
  }

  lemma PushOtherOk(s: Space, s': Space, h: int, n: int, v: int, x: int)
    requires Inv(s) && IsHeader(s, h) && IsNode(s, s.raw[h].top) && 0 <= n < BlockCount
    requires PushStep(s, s', h, n, v)
    requires IsNode(s, x) && x != s.raw[h].top
    ensures NodeOk(s', x)
  {
    var t := s.raw[h].top;
    var ks := s.kids[t];
    var last := LastKid(s, t);
    FreeUnreferenced(s, n);
    assert NodeOk(s, t);
    if ks != [] {
      assert s.raw[last].parent == t;
    }
    assert NodeOk(s, x);
    assert Occ(s', x) == Occ(s, x);
    var kx := s.kids[x];
    forall k | k in kx
      ensures IsNode(s', k) && s'.raw[k].parent == s.raw[k].parent && s'.raw[k].right == s.raw[k].right
    {
      var i :| 0 <= i < |kx| && kx[i] == k;
      assert NodeOk(s, k);
      assert k != n && k != h;
      if k == t {
        if ks != [] {
          assert t != last;
        }
      } else {
        assert k != last;
        assert s'.raw[k] == s.raw[k];
      }
    }
    ChainKept(s, s', x);
    var px := s.raw[x].parent;
    if px != -1 {
      assert x in s'.kids[px];
    }
  }

  lemma PushNodeOk(s: Space, s': Space, h: int, n: int, v: int, x: int)
    requires Inv(s) && IsHeader(s, h) && IsNode(s, s.raw[h].top) && 0 <= n < BlockCount
    requires PushStep(s, s', h, n, v)
    requires IsNode(s', x)
    ensures NodeOk(s', x)
  {
    if x == n {
      FreeUnreferenced(s, n);
      assert Occ(s', x) == 1;
      assert ChainOk(s', x);
    } else if x == s.raw[h].top {
      PushTopOk(s, s', h, n, v);
    } else {
      PushOtherOk(s, s', h, n, v, x);
    }
  }

  lemma PushHeaderOk(s: Space, s': Space, h: int, n: int, v: int, g: int)
    requires Inv(s) && IsHeader(s, h) && IsNode(s, s.raw[h].top) && 0 <= n < BlockCount
    requires PushStep(s, s', h, n, v)
    requires IsHeader(s', g)
    ensures HeaderOk(s', g)
  {
    var t := s.raw[h].top;
    var last := LastKid(s, t);
    assert s'.raw[t].Node? && s'.raw[last].Node? && s'.raw[n].Node?;
    if g != h {
      assert s'.raw[g] == s.raw[g];
    }
    assert IsHeader(s, g) && HeaderOk(s, g);
    var p := s.paths[g];
    forall i | 0 <= i < |p|
      ensures IsNode(s', p[i]) && s'.raw[p[i]].parent == s.raw[p[i]].parent && s'.raw[p[i]].idx == s.raw[p[i]].idx
    {
      assert IsNode(s, p[i]) && NodeOk(s, p[i]);
    }
    PathKept(s, s', p);
    if g == h {
      var p' := p + [n];
      assert PathOk(s', p');
      assert Values(s', p') == Values(s', p) + [v];
    }
  }

  lemma PushKeepsInv(s: Space, h: int, n: int, v: int)
    requires Inv(s) && IsHeader(s, h) && IsNode(s, s.raw[h].top) && 0 <= n < BlockCount && s.free[n]
    ensures Inv(Pushed(s, h, n, v))
    ensures Pushed(s, h, n, v).stacks == s.stacks[h := s.stacks[h] + [v]]
  {
    var s' := Pushed(s, h, n, v);
    PushFacts(s, h, n, v);
    forall x | IsNode(s', x)
      ensures NodeOk(s', x)
    {
      PushNodeOk(s, s', h, n, v, x);
    }
    forall g | IsHeader(s', g)
      ensures HeaderOk(s', g)
    {
      PushHeaderOk(s, s', h, n, v, g);
    }
  }

  // ---- facts every transition below reuses ----

  /** A node whose own links, children and parent link survive, and whose
      count matches the new number of referrers, is still well formed. */
  lemma NodeKept(s: Space, s': Space, x: int)
    requires Inv(s) && IsNode(s, x) && IsNode(s', x)
    requires s'.kids[x] == s.kids[x] && s'.depth[x] == s.depth[x]
    requires s'.raw[x].parent == s.raw[x].parent && s'.raw[x].idx == s.raw[x].idx
    requires s'.raw[x].left == s.raw[x].left && s'.raw[x].count == Occ(s', x)
    requires forall k :: k in s.kids[x] ==>
      IsNode(s, k) && IsNode(s', k) && s'.raw[k].parent == s.raw[k].parent && s'.raw[k].right == s.raw[k].right
    requires s.raw[x].parent != -1 ==>
      IsNode(s', s.raw[x].parent) && x in s'.kids[s.raw[x].parent]
      && s'.depth[s.raw[x].parent] == s.depth[s.raw[x].parent]
    ensures NodeOk(s', x)
  {
    assert NodeOk(s, x);
    ChainKept(s, s', x);
  }

  /** A header whose block, path and stack survive, over nodes that keep
      their parents and values, is still well formed. */
  lemma HeaderKept(s: Space, s': Space, g: int)
    requires Inv(s) && IsHeader(s, g) && IsHeader(s', g)
    requires s'.raw[g] == s.raw[g] && s'.paths[g] == s.paths[g]
    requires g in s'.stacks && s'.stacks[g] == s.stacks[g]
    requires forall k :: k in s.paths[g] ==>
      IsNode(s, k) && IsNode(s', k) && s'.raw[k].parent == s.raw[k].parent && s'.raw[k].idx == s.raw[k].idx
    ensures HeaderOk(s', g)
  {
    assert HeaderOk(s, g);
    var p := s.paths[g];
    forall i | 0 <= i < |p|
      ensures IsNode(s', p[i]) && s'.raw[p[i]].parent == s.raw[p[i]].parent && s'.raw[p[i]].idx == s.raw[p[i]].idx
    {
      assert p[i] in p;
    }
    PathKept(s, s', p);
  }

  /** The path of a header: its stack is empty exactly when top is root, and
      otherwise the top's parent is the node before it on the path and the
      top's value is the last one pushed. The root holds -1. */
  lemma HeaderPath(s: Space, h: int)
    requires Inv(s) && IsHeader(s, h)
    ensures var p := s.paths[h]; var t := s.raw[h].top;
      && |p| >= 1 && p[|p| - 1] == t && p[0] == s.raw[h].root
      && h in s.stacks && |s.stacks[h]| == |p| - 1
      && IsNode(s, t) && IsNode(s, s.raw[h].root)
      && (t == s.raw[h].root <==> s.stacks[h] == [])
      && (s.stacks[h] == [] ==> s.raw[t].idx == -1)
      && (s.stacks[h] != [] ==>
            |p| >= 2 && s.raw[t].parent == p[|p| - 2] && IsNode(s, p[|p| - 2])
            && s.raw[t].idx == s.stacks[h][|s.stacks[h]| - 1])
  {
    assert HeaderOk(s, h);
    var p := s.paths[h];
    assert IsNode(s, p[0]) && IsNode(s, p[|p| - 1]);
    assert NodeOk(s, p[0]);
    if |p| >= 2 {
      assert IsNode(s, p[|p| - 2]);
      assert s.raw[p[|p| - 1]].parent == p[|p| - 2];
    }
  }

  /** Exactly one live block points up at `t`, and it is the header `h`. */
  lemma SoleReferrer(s: Space, h: int, t: int)
    requires Inv(s) && IsHeader(s, h) && s.raw[h].top == t && IsNode(s, t) && Occ(s, t) == 1
    ensures forall b :: 0 <= b < BlockCount && b != h ==> Ups(s)[b] != t
  {
    var u := Ups(s);
    assert u[h] == t;
    forall b | 0 <= b < BlockCount && b != h
      ensures u[b] != t
    {
      if u[b] == t {
        if b < h { TwoEntries(u, b, h, t); } else { TwoEntries(u, h, b, t); }
      }
    }
  }

  /** The sibling chain of a live node, link by link. */
  lemma ChainOfNode(s: Space, n: int)
    requires Inv(s) && IsNode(s, n)
    ensures var ks := s.kids[n];
      && s.raw[n].left == (if ks == [] then -1 else ks[0])
      && (forall i :: 0 <= i < |ks| ==> IsNode(s, ks[i]) && ks[i] != n && s.raw[ks[i]].parent == n)
      && (forall i {:trigger NextKid(ks, i)} :: 0 <= i < |ks| ==>
            IsNode(s, ks[i]) && s.raw[ks[i]].right == NextKid(ks, i))
  {
    assert NodeOk(s, n);
    var ks := s.kids[n];
    forall i | 0 <= i < |ks|
      ensures ks[i] != n
    {
      assert NodeOk(s, ks[i]);
    }
  }

  /** A node only its handle refers to has no children. */
  lemma SoleHasNoKids(s: Space, h: int, t: int)
    requires Inv(s) && IsHeader(s, h) && s.raw[h].top == t && IsNode(s, t) && Occ(s, t) == 1
    ensures s.kids[t] == []
  {
    assert NodeOk(s, t);
    assert |s.kids[t]| > 0 ==> IsNode(s, s.kids[t][0]) && Ups(s)[s.kids[t][0]] == t;
    SoleReferrer(s, h, t);
  }

  /** A node only handle `h` refers to lies on no other handle's path... */
  lemma SoleOffOtherPath(s: Space, h: int, t: int, g: int)
    requires Inv(s) && IsHeader(s, h) && s.raw[h].top == t && IsNode(s, t) && Occ(s, t) == 1
    requires IsHeader(s, g) && g != h
    ensures forall j :: 0 <= j < |s.paths[g]| ==> s.paths[g][j] != t
  {
    SoleReferrer(s, h, t);
    assert HeaderOk(s, g);
    var p := s.paths[g];
    forall j | 0 <= j < |p|
      ensures p[j] != t
    {
      if j + 1 < |p| {
        assert IsNode(s, p[j + 1]) && Ups(s)[p[j + 1]] == p[j];
      } else {
        assert Ups(s)[g] == p[j];
      }
    }
  }

  /** ... and only at the end of `h`'s own path. */
  lemma SoleEndsPath(s: Space, h: int, t: int)
    requires Inv(s) && IsHeader(s, h) && s.raw[h].top == t && IsNode(s, t) && Occ(s, t) == 1
    ensures forall j :: 0 <= j < |s.paths[h]| - 1 ==> s.paths[h][j] != t
  {
    SoleReferrer(s, h, t);
    assert HeaderOk(s, h);
    var p := s.paths[h];
    forall j | 0 <= j < |p| - 1
      ensures p[j] != t
    {
      assert IsNode(s, p[j + 1]) && Ups(s)[p[j + 1]] == p[j];
    }
  }

  /** A prefix of a path is a path, holding a prefix of the values. */
  lemma PathPrefix(s: Space, p: seq<int>, k: int)
    requires PathOk(s, p) && 1 <= k <= |p|
    ensures PathOk(s, p[..k]) && Values(s, p[..k]) == Values(s, p)[..k - 1]
  {
  }

  /** Removing the element at `i` keeps every other element. */
  lemma RemoveAt(ks: seq<int>, i: int, x: int)
    requires 0 <= i < |ks| && x in ks && x != ks[i]
    ensures x in ks[..i] + ks[i + 1..]
  {
    var j :| 0 <= j < |ks| && ks[j] == x;
    if j < i {
      assert (ks[..i] + ks[i + 1..])[j] == x;
    } else {
      assert (ks[..i] + ks[i + 1..])[j - 1] == x;
    }
  }

  /** `s'` differs from `s` at most in node counts and in blocks that are
      not nodes: the live nodes, their links, values, children and depths
      agree. */
  ghost predicate SameShape(s: Space, s': Space)
  {
    && Sized(s) && Sized(s')
    && s'.kids == s.kids && s'.depth == s.depth
    && (forall b :: 0 <= b < BlockCount ==> (IsNode(s', b) <==> IsNode(s, b)))
    && (forall b :: 0 <= b < BlockCount && IsNode(s, b) ==>
          s'.raw[b].parent == s.raw[b].parent && s'.raw[b].idx == s.raw[b].idx
          && s'.raw[b].left == s.raw[b].left && s'.raw[b].right == s.raw[b].right)
  }

  /** A node is still well formed in a state of the same shape once its
      count matches its new number of referrers. */
  lemma ShapeNodeOk(s: Space, s': Space, x: int)
    requires Inv(s) && SameShape(s, s') && IsNode(s, x) && s'.raw[x].count == Occ(s', x)
    ensures NodeOk(s', x)
  {
    assert NodeOk(s, x);
    forall k | k in s.kids[x]
      ensures IsNode(s, k) && IsNode(s', k) && s'.raw[k].parent == s.raw[k].parent && s'.raw[k].right == s.raw[k].right
    {
      var i :| 0 <= i < |s.kids[x]| && s.kids[x][i] == k;
    }
    NodeKept(s, s', x);
  }

  /** Every path reads the same in a state of the same shape. */
  lemma ShapePath(s: Space, s': Space, p: seq<int>)
    requires SameShape(s, s') && PathOk(s, p)
    ensures PathOk(s', p) && Values(s', p) == Values(s, p)
  {
    PathKept(s, s', p);
  }

  /** A header whose block, path and stack are unchanged is still well formed
      in a state of the same shape. */
  lemma ShapeHeaderOk(s: Space, s': Space, g: int)
    requires Inv(s) && SameShape(s, s') && IsHeader(s, g) && IsHeader(s', g)
    requires s'.raw[g] == s.raw[g] && s'.paths[g] == s.paths[g]
    requires g in s'.stacks && s'.stacks[g] == s.stacks[g]
    ensures HeaderOk(s', g)
  {
    assert HeaderOk(s, g);
    ShapePath(s, s', s.paths[g]);
  }

  // ---- pop, shared top (tregex.c:110-113) ----

  /** Pop when the top node is still used elsewhere (`count != 1`): the
      handle's reference moves from the top node to its parent. */
  ghost function PoppedShared(s: Space, h: int): Space
    requires Inv(s) && IsHeader(s, h) && s.stacks[h] != []
  {
    HeaderPath(s, h);
    var t := s.raw[h].top;
    var p := s.raw[t].parent;
    var raw1 := s.raw[t := WithCount(s.raw[t], s.raw[t].count - 1)];
    var raw2 := raw1[p := WithCount(raw1[p], raw1[p].count + 1)];
    var path := s.paths[h];
    s.(raw := raw2[h := WithTop(raw2[h], p)],
       paths := s.paths[h := path[..|path| - 1]],
       stacks := s.stacks[h := s.stacks[h][..|s.stacks[h]| - 1]])
  }

  lemma PopSharedShape(s: Space, h: int)
    requires Inv(s) && IsHeader(s, h) && s.stacks[h] != [] && IsNode(s, s.raw[h].top)
    ensures SameShape(s, PoppedShared(s, h))
    ensures Ups(PoppedShared(s, h)) == Ups(s)[h := s.raw[s.raw[h].top].parent]
  {
    HeaderPath(s, h);
    var t := s.raw[h].top;
    var p := s.raw[t].parent;
    var s' := PoppedShared(s, h);
    forall b | 0 <= b < BlockCount
      ensures Ups(s')[b] == Ups(s)[h := p][b]
      ensures IsNode(s', b) <==> IsNode(s, b)
    {
    }
  }

  lemma PopSharedNodeOk(s: Space, h: int, x: int)
    requires Inv(s) && IsHeader(s, h) && s.stacks[h] != []
    requires IsNode(PoppedShared(s, h), x)
    ensures NodeOk(PoppedShared(s, h), x)
  {
    HeaderPath(s, h);
    var t := s.raw[h].top;
    var p := s.raw[t].parent;
    assert NodeOk(s, t);
    var s' := PoppedShared(s, h);
    PopSharedShape(s, h);
    assert Occ(s', x) == Occ(s, x) - (if x == t then 1 else 0) + (if x == p then 1 else 0);
    assert NodeOk(s, x);
    ShapeNodeOk(s, s', x);
  }

  lemma PopSharedHeaderOk(s: Space, h: int, g: int)
    requires Inv(s) && IsHeader(s, h) && s.stacks[h] != []
    requires IsHeader(PoppedShared(s, h), g)
    ensures HeaderOk(PoppedShared(s, h), g)
  {
    HeaderPath(s, h);
    var s' := PoppedShared(s, h);
    PopSharedShape(s, h);
    if g != h {
      ShapeHeaderOk(s, s', g);
    } else {
      assert HeaderOk(s, h);
      var path := s.paths[h];
      PathPrefix(s, path, |path| - 1);
      ShapePath(s, s', path[..|path| - 1]);
    }
  }

  lemma PopSharedKeepsInv(s: Space, h: int)
    requires Inv(s) && IsHeader(s, h) && s.stacks[h] != []
    ensures Inv(PoppedShared(s, h))
    ensures PoppedShared(s, h).stacks == s.stacks[h := s.stacks[h][..|s.stacks[h]| - 1]]
  {
    HeaderPath(s, h);
    PopSharedShape(s, h);
    var s' := PoppedShared(s, h);
    forall g | 0 <= g < BlockCount
      ensures IsHeader(s', g) <==> IsHeader(s, g)
    {
    }
    forall x | IsNode(s', x)
      ensures NodeOk(s', x)
    {
      PopSharedNodeOk(s, h, x);
    }
    forall g | IsHeader(s', g)
      ensures HeaderOk(s', g)
    {
      PopSharedHeaderOk(s, h, g);
    }
  }

  // ---- pop, last reference (tregex.c:94-108) ----

  /** Pop when the handle holds the only reference to its top node
      (`count == 1`): the node, the `i`-th child of its parent, is unlinked
      from the sibling chain and its block freed; the parent becomes top. */
  ghost function PoppedFreed(s: Space, h: int, i: int): Space
    requires Inv(s) && IsHeader(s, h) && s.stacks[h] != []
    requires var t := s.raw[h].top; t != -1 && IsNode(s, t) && IsNode(s, s.raw[t].parent)
    requires var p := s.raw[s.raw[h].top].parent; 0 <= i < |s.kids[p]| && s.kids[p][i] == s.raw[h].top
  {
    HeaderPath(s, h);
    var t := s.raw[h].top;
    var p := s.raw[t].parent;
    assert NodeOk(s, p);
    var ks := s.kids[p];
    var nx := s.raw[t].right;
    var raw1 :=
      if i == 0 then s.raw[p := WithLeft(s.raw[p], nx)]
      else s.raw[ks[i - 1] := WithRight(s.raw[ks[i - 1]], nx)];
    var path := s.paths[h];
    s.(raw := raw1[h := WithTop(raw1[h], p)],
       free := s.free[t := true],
       kids := s.kids[p := ks[..i] + ks[i + 1..]],
       paths := s.paths[h := path[..|path| - 1]],
       stacks := s.stacks[h := s.stacks[h][..|s.stacks[h]| - 1]])
  }

  /** The sibling before position `i` of a chain, or the owner `p` itself
      when `i` is the first position: the block whose link to position `i`
      an unlink rewrites. */
  ghost function LinkOwner(s: Space, p: int, i: int): int
    requires Sized(s) && 0 <= p < BlockCount && 0 <= i < |s.kids[p]|
  {
    if i == 0 then p else s.kids[p][i - 1]
  }

  /** What `PoppedFreed` changes, block by block. */
  ghost predicate PopFreedStep(s: Space, s': Space, h: int, i: int)
    requires Inv(s) && IsHeader(s, h) && s.stacks[h] != []
    requires var t := s.raw[h].top; t != -1 && IsNode(s, t) && IsNode(s, s.raw[t].parent)
    requires var p := s.raw[s.raw[h].top].parent; 0 <= i < |s.kids[p]| && s.kids[p][i] == s.raw[h].top
  {
    HeaderPath(s, h);
    var t := s.raw[h].top;
    var p := s.raw[t].parent;
    var ks := s.kids[p];
    var o := LinkOwner(s, p, i);
    var nx := s.raw[t].right;
    && Sized(s')
    && 0 <= o < BlockCount && s.raw[o].Node? && o != t && o != h
    && s'.free == s.free[t := true]
    && s'.kids == s.kids[p := ks[..i] + ks[i + 1..]]
    && s'.depth == s.depth
    && s'.paths == s.paths[h := s.paths[h][..|s.paths[h]| - 1]]
    && s'.stacks == s.stacks[h := s.stacks[h][..|s.stacks[h]| - 1]]
    && s'.raw[h] == s.raw[h].(top := p)
    && (i == 0 ==> s'.raw[p] == s.raw[p].(left := nx))
    && (i > 0 ==> s'.raw[o] == s.raw[o].(right := nx) && s'.raw[p] == s.raw[p] && o != p)
    && (forall b :: 0 <= b < BlockCount && b != h && b != o ==> s'.raw[b] == s.raw[b])
    && Ups(s') == Ups(s)[t := -1][h := p]
  }

  lemma PopFreedFacts(s: Space, h: int, i: int)
    requires Inv(s) && IsHeader(s, h) && s.stacks[h] != []
    requires var t := s.raw[h].top; t != -1 && IsNode(s, t) && IsNode(s, s.raw[t].parent)
    requires var p := s.raw[s.raw[h].top].parent; 0 <= i < |s.kids[p]| && s.kids[p][i] == s.raw[h].top
    ensures PopFreedStep(s, PoppedFreed(s, h, i), h, i)
  {
    HeaderPath(s, h);
    var t := s.raw[h].top;
    var p := s.raw[t].parent;
    assert NodeOk(s, p) && NodeOk(s, t);
    var ks := s.kids[p];
    if i > 0 {
      assert ks[i - 1] != ks[i];
      assert NodeOk(s, ks[i - 1]);
    }
    var s' := PoppedFreed(s, h, i);
    forall b | 0 <= b < BlockCount
      ensures Ups(s')[b] == Ups(s)[t := -1][h := p][b]
    {
    }
  }

  /** The parent's sibling chain, with the freed node cut out, is well formed. */
  lemma PopFreedChainOk(s: Space, s': Space, h: int, i: int)
    requires Inv(s) && IsHeader(s, h) && s.stacks[h] != []
    requires var t := s.raw[h].top; t != -1 && IsNode(s, t) && IsNode(s, s.raw[t].parent)
    requires var p := s.raw[s.raw[h].top].parent; 0 <= i < |s.kids[p]| && s.kids[p][i] == s.raw[h].top
    requires PopFreedStep(s, s', h, i)
    ensures IsNode(s', s.raw[s.raw[h].top].parent) && ChainOk(s', s.raw[s.raw[h].top].parent)
  {
    HeaderPath(s, h);
    var t := s.raw[h].top;
    var p := s.raw[t].parent;
    assert NodeOk(s, t) && NodeOk(s, p);
    var ks := s.kids[p];
    var ks' := ks[..i] + ks[i + 1..];
    var o := LinkOwner(s, p, i);
    var nx := s.raw[t].right;
    assert nx == NextKid(ks, i);
    forall j | 0 <= j < |ks'|
      ensures IsNode(s', ks'[j]) && s'.raw[ks'[j]].parent == p
      ensures s'.raw[ks'[j]].right == NextKid(ks', j)
    {
      var j0 := if j < i then j else j + 1;
      assert ks'[j] == ks[j0] && j0 != i;
      assert ks[j0] != t;
      assert NodeOk(s, ks[j0]);
      assert s.raw[ks[j0]].right == NextKid(ks, j0);
      if i > 0 && j == i - 1 {
        assert ks[j0] == o;
      } else {
        assert ks[j0] != o;
        assert s'.raw[ks[j0]] == s.raw[ks[j0]];
      }
    }
    if i == 0 {
      assert s'.raw[p].left == (if ks' == [] then -1 else ks'[0]);
    } else {
      assert ks'[0] == ks[0];
    }
  }

  lemma PopFreedParentOk(s: Space, s': Space, h: int, i: int)
    requires Inv(s) && IsHeader(s, h) && s.stacks[h] != []
    requires var t := s.raw[h].top; t != -1 && IsNode(s, t) && IsNode(s, s.raw[t].parent)
    requires var p := s.raw[s.raw[h].top].parent; 0 <= i < |s.kids[p]| && s.kids[p][i] == s.raw[h].top
    requires PopFreedStep(s, s', h, i) && s.raw[s.raw[h].top].count == 1
    ensures IsNode(s', s.raw[s.raw[h].top].parent) && NodeOk(s', s.raw[s.raw[h].top].parent)
  {
    HeaderPath(s, h);
    var t := s.raw[h].top;
    var p := s.raw[t].parent;
    assert NodeOk(s, t) && NodeOk(s, p);
    SoleReferrer(s, h, t);
    PopFreedChainOk(s, s', h, i);
    assert Occ(s', p) == Occ(s, p);
    var pp := s.raw[p].parent;
    if pp != -1 {
      assert Ups(s)[p] == pp;
      assert pp != p;
      assert s'.kids[pp] == s.kids[pp];
    }
  }

  lemma PopFreedOtherOk(s: Space, s': Space, h: int, i: int, x: int)
    requires Inv(s) && IsHeader(s, h) && s.stacks[h] != []
    requires var t := s.raw[h].top; t != -1 && IsNode(s, t) && IsNode(s, s.raw[t].parent)
    requires var p := s.raw[s.raw[h].top].parent; 0 <= i < |s.kids[p]| && s.kids[p][i] == s.raw[h].top
    requires PopFreedStep(s, s', h, i) && s.raw[s.raw[h].top].count == 1
    requires IsNode(s, x) && x != s.raw[h].top && x != s.raw[s.raw[h].top].parent
    ensures IsNode(s', x) && NodeOk(s', x)
  {
    HeaderPath(s, h);
    var t := s.raw[h].top;
    var p := s.raw[t].parent;
    assert NodeOk(s, t) && NodeOk(s, p) && NodeOk(s, x);
    SoleReferrer(s, h, t);
    var o := LinkOwner(s, p, i);
    if i > 0 {
      assert s.raw[o].parent == p;
    }
    assert Occ(s', x) == Occ(s, x);
    forall k | k in s.kids[x]
      ensures IsNode(s, k) && IsNode(s', k) && s'.raw[k].parent == s.raw[k].parent && s'.raw[k].right == s.raw[k].right
    {
      var j :| 0 <= j < |s.kids[x]| && s.kids[x][j] == k;
      assert IsNode(s, k) && s.raw[k].parent == x;
      assert k != t && k != h;
      if k != o {
        assert s'.raw[k] == s.raw[k];
      }
    }
    var px := s.raw[x].parent;
    if px != -1 {
      assert Ups(s)[x] == px;
      if px == p {
        RemoveAt(s.kids[p], i, x);
      }
    }
    NodeKept(s, s', x);
  }

  lemma PopFreedHeaderOk(s: Space, s': Space, h: int, i: int, g: int)
    requires Inv(s) && IsHeader(s, h) && s.stacks[h] != []
    requires var t := s.raw[h].top; t != -1 && IsNode(s, t) && IsNode(s, s.raw[t].parent)
    requires var p := s.raw[s.raw[h].top].parent; 0 <= i < |s.kids[p]| && s.kids[p][i] == s.raw[h].top
    requires PopFreedStep(s, s', h, i) && s.raw[s.raw[h].top].count == 1
    requires IsHeader(s', g)
    ensures HeaderOk(s', g)
  {
    HeaderPath(s, h);
    var t := s.raw[h].top;
    assert NodeOk(s, t);
    var o := LinkOwner(s, s.raw[t].parent, i);
    assert g != o && IsHeader(s, g);
    assert HeaderOk(s, g);
    var path := s.paths[g];
    if g != h {
      SoleOffOtherPath(s, h, t, g);
      forall k | k in path
        ensures IsNode(s, k) && IsNode(s', k) && s'.raw[k].parent == s.raw[k].parent && s'.raw[k].idx == s.raw[k].idx
      {
        var j :| 0 <= j < |path| && path[j] == k;
      }
      HeaderKept(s, s', g);
    } else {
      SoleEndsPath(s, h, t);
      var q := path[..|path| - 1];
      PathPrefix(s, path, |path| - 1);
      forall j | 0 <= j < |q|
        ensures IsNode(s', q[j]) && s'.raw[q[j]].parent == s.raw[q[j]].parent && s'.raw[q[j]].idx == s.raw[q[j]].idx
      {
        assert q[j] == path[j] && path[j] != t;
      }
      PathKept(s, s', q);
    }
  }

  lemma PopFreedKeepsInv(s: Space, h: int, i: int)
    requires Inv(s) && IsHeader(s, h) && s.stacks[h] != []
    requires var t := s.raw[h].top; t != -1 && IsNode(s, t) && IsNode(s, s.raw[t].parent)
    requires var p := s.raw[s.raw[h].top].parent; 0 <= i < |s.kids[p]| && s.kids[p][i] == s.raw[h].top
    requires s.raw[s.raw[h].top].count == 1
    ensures Inv(PoppedFreed(s, h, i))
    ensures PoppedFreed(s, h, i).stacks == s.stacks[h := s.stacks[h][..|s.stacks[h]| - 1]]
  {
    var s' := PoppedFreed(s, h, i);
    PopFreedFacts(s, h, i);
    var t := s.raw[h].top;
    var p := s.raw[t].parent;
    forall x | IsNode(s', x)
      ensures NodeOk(s', x)
    {
      if x == p {
        PopFreedParentOk(s, s', h, i);
      } else {
        PopFreedOtherOk(s, s', h, i, x);
      }
    }
    forall g | IsHeader(s', g)
      ensures HeaderOk(s', g)
    {
      PopFreedHeaderOk(s, s', h, i, g);
    }
  }

  // ---- copy (tregex.c:118-124) ----

  /** A new header in free block `c` sharing the root and top of `h`; the
      top node gains a reference. */
  ghost function Copied(s: Space, h: int, c: int): Space
    requires Inv(s) && IsHeader(s, h) && 0 <= c < BlockCount && s.free[c]
  {
    HeaderPath(s, h);
    var t := s.raw[h].top;
    var raw1 := s.raw[c := Header(s.raw[h].root, t)];
    s.(raw := raw1[t := WithCount(s.raw[t], s.raw[t].count + 1)],
       free := s.free[c := false],
       paths := s.paths[c := s.paths[h]],
       stacks := s.stacks[c := s.stacks[h]])
  }

  lemma CopyShape(s: Space, h: int, c: int)
    requires Inv(s) && IsHeader(s, h) && 0 <= c < BlockCount && s.free[c]
    ensures c !in s.stacks && h != c
    ensures SameShape(s, Copied(s, h, c))
    ensures Ups(Copied(s, h, c)) == Ups(s)[c := s.raw[h].top]
  {
    HeaderPath(s, h);
    var t := s.raw[h].top;
    var s' := Copied(s, h, c);
    forall b | 0 <= b < BlockCount
      ensures Ups(s')[b] == Ups(s)[c := t][b]
    {
    }
  }

  lemma CopyNodeOk(s: Space, h: int, c: int, x: int)
    requires Inv(s) && IsHeader(s, h) && 0 <= c < BlockCount && s.free[c]
    requires IsNode(Copied(s, h, c), x)
    ensures NodeOk(Copied(s, h, c), x)
  {
    HeaderPath(s, h);
    CopyShape(s, h, c);
    var s' := Copied(s, h, c);
    FreeUnreferenced(s, c);
    assert Occ(s', x) == Occ(s, x) + (if x == s.raw[h].top then 1 else 0);
    assert NodeOk(s, x);
    ShapeNodeOk(s, s', x);
  }

  lemma CopyHeaderOk(s: Space, h: int, c: int, g: int)
    requires Inv(s) && IsHeader(s, h) && 0 <= c < BlockCount && s.free[c]
    requires IsHeader(Copied(s, h, c), g)
    ensures HeaderOk(Copied(s, h, c), g)
  {
    HeaderPath(s, h);
    CopyShape(s, h, c);
    var s' := Copied(s, h, c);
    if g != c {
      ShapeHeaderOk(s, s', g);
    } else {
      assert HeaderOk(s, h);
      ShapePath(s, s', s.paths[h]);
    }
  }

  lemma CopyKeepsInv(s: Space, h: int, c: int)
    requires Inv(s) && IsHeader(s, h) && 0 <= c < BlockCount && s.free[c]
    ensures c !in s.stacks && h != c
    ensures Inv(Copied(s, h, c))
    ensures Copied(s, h, c).stacks == s.stacks[c := s.stacks[h]]
  {
    HeaderPath(s, h);
    CopyShape(s, h, c);
    var s' := Copied(s, h, c);
    forall g | 0 <= g < BlockCount
      ensures IsHeader(s', g) <==> IsHeader(s, g) || g == c
    {
    }
    forall x | IsNode(s', x)
      ensures NodeOk(s', x)
    {
      CopyNodeOk(s, h, c, x);
    }
    forall g | IsHeader(s', g)
      ensures HeaderOk(s', g)
    {
      CopyHeaderOk(s, h, c, g);
    }
  }

  // ---- create (tregex.c:58-68) ----

  /** A new stack: header in free block `hb`, root node in free block `r`
      holding -1, top at the root. */
  ghost function Created(s: Space, hb: int, r: int): Space
    requires Sized(s) && 0 <= hb < BlockCount && 0 <= r < BlockCount
  {
    s.(raw := s.raw[hb := Header(r, r)][r := Node(-1, -1, -1, -1, 1)],
       free := s.free[hb := false][r := false],
       kids := s.kids[r := []],
       depth := s.depth[r := 0],
       paths := s.paths[hb := [r]],
       stacks := s.stacks[hb := []])
  }

  lemma CreateUps(s: Space, hb: int, r: int)
    requires Inv(s) && 0 <= hb < BlockCount && 0 <= r < BlockCount && hb != r && s.free[hb] && s.free[r]
    ensures Ups(Created(s, hb, r)) == Ups(s)[hb := r]
    ensures Occ(s, r) == 0
  {
    var s' := Created(s, hb, r);
    FreeUnreferenced(s, r);
    forall b | 0 <= b < BlockCount
      ensures Ups(s')[b] == Ups(s)[hb := r][b]
    {
    }
  }

  lemma CreateNodeOk(s: Space, hb: int, r: int, x: int)
    requires Inv(s) && 0 <= hb < BlockCount && 0 <= r < BlockCount && hb != r && s.free[hb] && s.free[r]
    requires IsNode(Created(s, hb, r), x)
    ensures NodeOk(Created(s, hb, r), x)
  {
    var s' := Created(s, hb, r);
    CreateUps(s, hb, r);
    assert Occ(s', x) == Occ(s, x) + (if x == r then 1 else 0);
    if x == r {
      assert ChainOk(s', x);
    } else {
      assert NodeOk(s, x);
      forall k | k in s.kids[x]
        ensures IsNode(s, k) && IsNode(s', k) && s'.raw[k].parent == s.raw[k].parent && s'.raw[k].right == s.raw[k].right
      {
        var j :| 0 <= j < |s.kids[x]| && s.kids[x][j] == k;
      }
      NodeKept(s, s', x);
    }
  }

  lemma CreateHeaderOk(s: Space, hb: int, r: int, g: int)
    requires Inv(s) && 0 <= hb < BlockCount && 0 <= r < BlockCount && hb != r && s.free[hb] && s.free[r]
    requires IsHeader(Created(s, hb, r), g)
    ensures HeaderOk(Created(s, hb, r), g)
  {
    var s' := Created(s, hb, r);
    if g != hb {
      assert HeaderOk(s, g);
      forall k | k in s.paths[g]
        ensures IsNode(s, k) && IsNode(s', k) && s'.raw[k].parent == s.raw[k].parent && s'.raw[k].idx == s.raw[k].idx
      {
        var j :| 0 <= j < |s.paths[g]| && s.paths[g][j] == k;
      }
      HeaderKept(s, s', g);
    } else {
      assert PathOk(s', [r]);
    }
  }

  lemma CreateKeepsInv(s: Space, hb: int, r: int)
    requires Inv(s) && 0 <= hb < BlockCount && 0 <= r < BlockCount && hb != r && s.free[hb] && s.free[r]
    ensures hb !in s.stacks
    ensures Inv(Created(s, hb, r))
    ensures Created(s, hb, r).stacks == s.stacks[hb := []]
  {
    var s' := Created(s, hb, r);
    forall g | 0 <= g < BlockCount
      ensures IsHeader(s', g) <==> IsHeader(s, g) || g == hb
    {
    }
    forall x | IsNode(s', x)
      ensures NodeOk(s', x)
    {
      CreateNodeOk(s, hb, r, x);
    }
    forall g | IsHeader(s', g)
      ensures HeaderOk(s', g)
    {
      CreateHeaderOk(s, hb, r, g);
    }
  }

  // ---- destroy, final step (tregex.c:129-133) ----

  /** Once the handle is back at its root: the root is freed when the handle
      held its last reference, its count drops otherwise; the header is freed. */
  ghost function Released(s: Space, h: int): Space
    requires Inv(s) && IsHeader(s, h)
  {
    HeaderPath(s, h);
    var r := s.raw[h].root;
    if s.raw[r].count == 1 then
      s.(free := s.free[r := true][h := true], stacks := s.stacks - {h})
    else
      s.(raw := s.raw[r := WithCount(s.raw[r], s.raw[r].count - 1)],
         free := s.free[h := true], stacks := s.stacks - {h})
  }

  lemma ReleaseKeepsInv(s: Space, h: int)
    requires Inv(s) && IsHeader(s, h) && s.stacks[h] == []
    ensures Inv(Released(s, h))
    ensures Released(s, h).stacks == s.stacks - {h}
  {
    HeaderPath(s, h);
    var r := s.raw[h].root;
    if s.raw[r].count == 1 {
      ReleaseLastKeepsInv(s, h);
    } else {
      ReleaseSharedKeepsInv(s, h);
    }
  }

  /** Releasing a handle whose root other blocks still refer to. */
  lemma ReleaseSharedKeepsInv(s: Space, h: int)
    requires Inv(s) && IsHeader(s, h) && s.stacks[h] == []
    requires IsNode(s, s.raw[h].root) && s.raw[s.raw[h].root].count != 1
    ensures Inv(Released(s, h))
  {
    HeaderPath(s, h);
    var r := s.raw[h].root;
    var s' := Released(s, h);
    forall b | 0 <= b < BlockCount
      ensures Ups(s')[b] == Ups(s)[h := -1][b]
      ensures IsNode(s', b) <==> IsNode(s, b)
      ensures IsHeader(s', b) <==> IsHeader(s, b) && b != h
    {
    }
    assert Ups(s') == Ups(s)[h := -1];
    assert SameShape(s, s');
    forall x | IsNode(s', x)
      ensures NodeOk(s', x)
    {
      assert Occ(s', x) == Occ(s, x) - (if x == r then 1 else 0);
      assert NodeOk(s, x);
      ShapeNodeOk(s, s', x);
    }
    forall g | IsHeader(s', g)
      ensures HeaderOk(s', g)
    {
      ShapeHeaderOk(s, s', g);
    }
  }

  /** What releasing the last reference to a root changes. */
  lemma ReleaseLastUps(s: Space, h: int)
    requires Inv(s) && IsHeader(s, h) && s.stacks[h] == []
    requires IsNode(s, s.raw[h].root) && s.raw[s.raw[h].root].count == 1
    ensures var r := s.raw[h].root;
      && Ups(Released(s, h)) == Ups(s)[r := -1][h := -1]
      && Ups(s)[r] == -1 && Ups(s)[h] == r
      && forall b :: 0 <= b < BlockCount && b != h ==> Ups(s)[b] != r
  {
    HeaderPath(s, h);
    TopIsNode(s, h);
    var r := s.raw[h].root;
    assert NodeOk(s, r);
    assert Ups(s)[r] == -1;
    SoleReferrer(s, h, r);
    var s' := Released(s, h);
    forall b | 0 <= b < BlockCount
      ensures Ups(s')[b] == Ups(s)[r := -1][h := -1][b]
    {
    }
  }

  lemma ReleaseLastNodeOk(s: Space, h: int, x: int)
    requires Inv(s) && IsHeader(s, h) && s.stacks[h] == []
    requires IsNode(s, s.raw[h].root) && s.raw[s.raw[h].root].count == 1
    requires IsNode(Released(s, h), x)
    ensures NodeOk(Released(s, h), x)
  {
    HeaderPath(s, h);
    ReleaseLastUps(s, h);
    var r := s.raw[h].root;
    var s' := Released(s, h);
    assert x != r && x != -1;
    assert Occ(s', x) == Occ(s, x);
    assert NodeOk(s, x);
    forall k | k in s.kids[x]
      ensures IsNode(s, k) && IsNode(s', k) && s'.raw[k].parent == s.raw[k].parent && s'.raw[k].right == s.raw[k].right
    {
      var j :| 0 <= j < |s.kids[x]| && s.kids[x][j] == k;
      assert IsNode(s, k) && s.raw[k].parent == x;
    }
    if s.raw[x].parent != -1 {
      assert Ups(s)[x] == s.raw[x].parent;
    }
    NodeKept(s, s', x);
  }

  lemma ReleaseLastHeaderOk(s: Space, h: int, g: int)
    requires Inv(s) && IsHeader(s, h) && s.stacks[h] == []
    requires IsNode(s, s.raw[h].root) && s.raw[s.raw[h].root].count == 1
    requires IsHeader(Released(s, h), g)
    ensures HeaderOk(Released(s, h), g)
  {
    HeaderPath(s, h);
    var r := s.raw[h].root;
    var s' := Released(s, h);
    assert NodeOk(s, r) && g != h;
    SoleOffOtherPath(s, h, r, g);
    assert HeaderOk(s, g);
    forall k | k in s.paths[g]
      ensures IsNode(s, k) && IsNode(s', k) && s'.raw[k].parent == s.raw[k].parent && s'.raw[k].idx == s.raw[k].idx
    {
      var j :| 0 <= j < |s.paths[g]| && s.paths[g][j] == k;
    }
    HeaderKept(s, s', g);
  }

  lemma ReleaseLastKeepsInv(s: Space, h: int)
    requires Inv(s) && IsHeader(s, h) && s.stacks[h] == []
    requires IsNode(s, s.raw[h].root) && s.raw[s.raw[h].root].count == 1
    ensures Inv(Released(s, h))
  {
    HeaderPath(s, h);
    var s' := Released(s, h);
    forall b | 0 <= b < BlockCount
      ensures IsHeader(s', b) <==> IsHeader(s, b) && b != h
    {
    }
    forall x | IsNode(s', x)
      ensures NodeOk(s', x)
    {
      ReleaseLastNodeOk(s, h, x);
    }
    forall g | IsHeader(s', g)
      ensures HeaderOk(s', g)
    {
      ReleaseLastHeaderOk(s, h, g);
    }
  }
}

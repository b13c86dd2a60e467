/** The persistent stacks of one pool, updated in place (tregex.c:48-134).
    The blocks live in the pool's raw array; the ghost fields carry the
    bookkeeping of `PersistentStack.Space` (sibling chains, depths, paths and
    the logical stack of every live handle), and `Valid()` is that module's
    invariant over the current heap. Each method is proved against the
    transition function of `PersistentStack` it performs. */
module StackHeap {
  import opened Layout
  import opened BlockPool
  import opened PersistentStack

  class StackSpace {
    const pool: Pool
    ghost var kids: seq<seq<int>>
    ghost var depth: seq<nat>
    ghost var paths: seq<seq<int>>
    /** The logical stack of every live handle, bottom first. */
    ghost var Stacks: map<int, seq<int>>

    ghost function State(): Space
      reads this, pool, pool.raw
    {
      Space(pool.raw[..], pool.Free, kids, depth, paths, Stacks)
    }

    ghost predicate Valid()
      reads this, pool, pool.bitmap, pool.raw
    {
      pool.Valid() && Inv(State())
    }

    /** Stacks over a pool whose blocks are all free. */
    constructor (p: Pool)
      requires p.Valid() && p.AllFree()
      ensures pool == p && Valid() && Stacks == map[]
    {
      pool := p;
      kids := seq(BlockCount, _ => []);
      depth := seq(BlockCount, _ => 0);
      paths := seq(BlockCount, _ => []);
      Stacks := map[];
    }

    /** `tregex_internal_stack_create` (tregex.c:58-68): a header and a root
        node holding -1 are allocated; the handle's top is its root. `ok` is
        false where the source exits, when the pool runs out of blocks. */
    method Create() returns (ok: bool, h: int)
      requires Valid()
      modifies this, pool, pool.bitmap, pool.raw
      ensures ok ==> Valid() && h !in old(Stacks) && Stacks == old(Stacks)[h := []]
      ensures !ok ==> pool.Valid() && forall b :: 0 <= b < BlockCount ==> !pool.Free[b]
    {
      ghost var s := State();
      var r;
      ok, h := pool.Alloc();
      if !ok {
        return;
      }
      ok, r := pool.Alloc();
      if !ok {
        return;
      }
      pool.raw[h] := Header(r, r);
      pool.raw[r] := Node(-1, -1, -1, -1, 1);
      kids := kids[r := []];
      depth := depth[r := 0];
      paths := paths[h := [r]];
      Stacks := Stacks[h := []];
      CreateKeepsInv(s, h, r);
      assert State() == Created(s, h, r);
    }

    /** `tregex_internal_stack_top` (tregex.c:114-116): the top value, -1 for
        an empty stack (the root holds -1). */
    method Top(h: int) returns (v: int)
      requires Valid() && h in Stacks
      ensures v == (if Stacks[h] == [] then -1 else Stacks[h][|Stacks[h]| - 1])
    {
      HeaderPath(State(), h);
      v := pool.raw[pool.raw[h].top].idx;
    }

    /** The walk `for (; child->right; child = child->right);` of
        tregex.c:81-82: from the first block of a sibling chain `ks`, follow
        `right` links to the last one. */
    method LastSibling(first: int, ghost ks: seq<int>) returns (child: int)
      requires ks != [] && first == ks[0]
      requires forall i :: 0 <= i < |ks| ==> 0 <= ks[i] < pool.raw.Length
      requires forall i :: 0 <= i < |ks| ==> pool.raw[ks[i]].Node?
      requires forall i {:trigger NextKid(ks, i)} :: 0 <= i < |ks| ==> pool.raw[ks[i]].right == NextKid(ks, i)
      ensures child == ks[|ks| - 1]
    {
      child := first;
      ghost var j := 0;
      while pool.raw[child].right != -1
        invariant 0 <= j < |ks| && child == ks[j] && pool.raw[child].right == NextKid(ks, j)
        decreases |ks| - j
      {
        child := pool.raw[child].right;
        j := j + 1;
      }
    }

    /** The linking step of a push (tregex.c:78-84): block `n` becomes the
        first child of `top` when it has none, or the `right` sibling of the
        last block of its chain `ks`, reached by `LastSibling`. */
    method LinkChild(top: int, n: int, ghost ks: seq<int>)
      requires 0 <= top < pool.raw.Length && 0 <= n < pool.raw.Length && top != n
      requires pool.raw[top].Node? && pool.raw[top].left == (if ks == [] then -1 else ks[0])
      requires forall i :: 0 <= i < |ks| ==> 0 <= ks[i] < pool.raw.Length && ks[i] != n && ks[i] != top
      requires forall i :: 0 <= i < |ks| ==> pool.raw[ks[i]].Node?
      requires forall i {:trigger NextKid(ks, i)} :: 0 <= i < |ks| ==> pool.raw[ks[i]].right == NextKid(ks, i)
      modifies pool.raw
      ensures ks == [] ==> pool.raw[..] == old(pool.raw[..])[top := WithLeft(old(pool.raw[top]), n)]
      ensures ks != [] ==>
        var last := ks[|ks| - 1]; pool.raw[..] == old(pool.raw[..])[last := WithRight(old(pool.raw[last]), n)]
    {
      if pool.raw[top].left == -1 {
        pool.raw[top] := WithLeft(pool.raw[top], n);
      } else {
        var child := LastSibling(pool.raw[top].left, ks);
        pool.raw[child] := WithRight(pool.raw[child], n);
      }
    }

    /** `tregex_internal_stack_push` (tregex.c:70-87): a new node holding `v`
        is appended to the end of the old top's sibling chain, found by
        walking it, and becomes the top. `ok` is false, and nothing changes,
        where the source exits because the pool is full. */
    method Push(h: int, v: int) returns (ok: bool)
      requires Valid() && h in Stacks
      modifies this, pool, pool.bitmap, pool.raw
      ensures Valid()
      ensures ok ==> Stacks == old(Stacks)[h := old(Stacks)[h] + [v]]
      ensures !ok ==> Stacks == old(Stacks) && forall b :: 0 <= b < BlockCount ==> !pool.Free[b]
    {
      ghost var s := State();
      HeaderPath(s, h);
      var top := pool.raw[h].top;
      var n;
      ok, n := pool.Alloc();
      if !ok {
        assert State() == s;
        return;
      }
      pool.raw[n] := Node(top, -1, -1, v, 1);
      ghost var raw1 := pool.raw[..];
      ghost var ks := s.kids[top];
      ChainOfNode(s, top);
      LinkChild(top, n, ks);
      ghost var raw2 := pool.raw[..];
      pool.raw[h] := WithTop(pool.raw[h], n);
      assert pool.raw[..] == raw2[h := WithTop(raw2[h], n)];
      ghost var ps := Pushed(s, h, n, v);
      kids, depth, paths, Stacks := ps.kids, ps.depth, ps.paths, ps.stacks;
      assert pool.raw[..] == ps.raw;
      PushKeepsInv(s, h, n, v);
    }

    /** The unlinking step of a pop (tregex.c:95-103): `top`, a child of
        `parent` whose sibling chain is `ks`, is bypassed, either by the
        parent's first-child link or by the `right` link of the sibling
        before it, found by walking the chain. `i` is its position. */
    method Unlink(parent: int, top: int, ghost ks: seq<int>) returns (ghost i: int)
      requires 0 <= parent < pool.raw.Length && 0 <= top < pool.raw.Length && top in ks
      requires pool.raw[parent].Node? && pool.raw[top].Node?
      requires pool.raw[parent].left == (if ks == [] then -1 else ks[0])
      requires forall k :: 0 <= k < |ks| ==> 0 <= ks[k] < pool.raw.Length && ks[k] != parent && pool.raw[ks[k]].Node?
      requires forall k {:trigger NextKid(ks, k)} :: 0 <= k < |ks| ==> pool.raw[ks[k]].right == NextKid(ks, k)
      modifies pool.raw
      ensures 0 <= i < |ks| && ks[i] == top
      ensures i == 0 ==>
        pool.raw[..] == old(pool.raw[..])[parent := WithLeft(old(pool.raw[parent]), old(pool.raw[top]).right)]
      ensures i > 0 ==>
        pool.raw[..] == old(pool.raw[..])[ks[i - 1] := WithRight(old(pool.raw[ks[i - 1]]), old(pool.raw[top]).right)]
    {
      var p := pool.raw[parent].left;
      var q := pool.raw[p].right;
      i := 0;
      if p == top {
        pool.raw[parent] := WithLeft(pool.raw[parent], pool.raw[top].right);
      } else {
        while q != -1 && q != top
          invariant 0 <= i < |ks| && p == ks[i] && q == NextKid(ks, i)
          invariant forall k :: 0 <= k <= i ==> ks[k] != top
          decreases |ks| - i
        {
          p := q;
          q := pool.raw[q].right;
          i := i + 1;
        }
        // the walk stops at `top`, which is on the chain
        if q == -1 {
          assert false;
        }
        pool.raw[p] := WithRight(pool.raw[p], pool.raw[top].right);
        i := i + 1;
      }
    }

    /** `tregex_internal_stack_pop` (tregex.c:89-112): at the root it returns
        -1 and changes nothing; otherwise it returns the top value and the
        parent becomes top. A top only this handle refers to (`count == 1`)
        is unlinked from its parent's chain and freed; a shared one passes
        its reference to the parent. */
    method Pop(h: int) returns (v: int)
      requires Valid() && h in Stacks
      modifies this, pool, pool.bitmap, pool.raw
      ensures Valid()
      ensures old(Stacks)[h] == [] ==> v == -1 && unchanged(this, pool, pool.bitmap, pool.raw)
      ensures old(Stacks)[h] != [] ==>
        var st := old(Stacks)[h]; v == st[|st| - 1] && Stacks == old(Stacks)[h := st[..|st| - 1]]
    {
      HeaderPath(State(), h);
      var top := pool.raw[h].top;
      var parent := pool.raw[top].parent;
      var idx := pool.raw[top].idx;
      if top == pool.raw[h].root {
        return -1;
      }
      if pool.raw[top].count == 1 {
        PopLast(h, top, parent);
      } else {
        PopShared(h, top, parent);
      }
      return idx;
    }

    /** The last-reference branch of a pop (tregex.c:94-107). */
    method PopLast(h: int, top: int, parent: int)
      requires Valid() && h in Stacks && Stacks[h] != []
      requires 0 <= h < pool.raw.Length && pool.raw[h].Header? && top == pool.raw[h].top
      requires 0 <= top < pool.raw.Length && pool.raw[top].Node?
      requires parent == pool.raw[top].parent && pool.raw[top].count == 1
      modifies this, pool, pool.bitmap, pool.raw
      ensures Valid()
      ensures Stacks == old(Stacks)[h := old(Stacks)[h][..|old(Stacks)[h]| - 1]]
    {
      ghost var s := State();
      HeaderPath(s, h);
      assert NodeOk(s, top);
      ChainOfNode(s, parent);
      ghost var i: int;
      i := Unlink(parent, top, s.kids[parent]);
      pool.Release(top);
      ghost var raw1 := pool.raw[..];
      pool.raw[h] := WithTop(pool.raw[h], parent);
      assert pool.raw[..] == raw1[h := WithTop(raw1[h], parent)];
      ghost var ps := PoppedFreed(s, h, i);
      kids, depth, paths, Stacks := ps.kids, ps.depth, ps.paths, ps.stacks;
      assert pool.raw[..] == ps.raw;
      PopFreedKeepsInv(s, h, i);
    }

    /** The shared-top branch of a pop (tregex.c:108-111). */
    method PopShared(h: int, top: int, parent: int)
      requires Valid() && h in Stacks && Stacks[h] != []
      requires 0 <= h < pool.raw.Length && pool.raw[h].Header? && top == pool.raw[h].top
      requires 0 <= top < pool.raw.Length && pool.raw[top].Node? && parent == pool.raw[top].parent
      modifies this, pool, pool.bitmap, pool.raw
      ensures Valid()
      ensures Stacks == old(Stacks)[h := old(Stacks)[h][..|old(Stacks)[h]| - 1]]
    {
      ghost var s := State();
      HeaderPath(s, h);
      pool.raw[top] := WithCount(pool.raw[top], pool.raw[top].count - 1);
      ghost var raw1 := s.raw[top := WithCount(s.raw[top], s.raw[top].count - 1)];
      assert pool.raw[..] == raw1;
      pool.raw[parent] := WithCount(pool.raw[parent], pool.raw[parent].count + 1);
      ghost var raw2 := raw1[parent := WithCount(raw1[parent], raw1[parent].count + 1)];
      assert pool.raw[..] == raw2;
      pool.raw[h] := WithTop(pool.raw[h], parent);
      assert pool.raw[..] == raw2[h := WithTop(raw2[h], parent)];
      ghost var ps := PoppedShared(s, h);
      kids, depth, paths, Stacks := ps.kids, ps.depth, ps.paths, ps.stacks;
      assert pool.raw[..] == ps.raw;
      PopSharedKeepsInv(s, h);
    }

    /** `tregex_internal_stack_copy` (tregex.c:118-124): a new handle on the
        same root and top; the top node gains a reference. `ok` is false, and
        nothing changes, where the source exits because the pool is full. */
    method Copy(h: int) returns (ok: bool, c: int)
      requires Valid() && h in Stacks
      modifies this, pool, pool.bitmap, pool.raw
      ensures Valid()
      ensures ok ==> c !in old(Stacks) && Stacks == old(Stacks)[c := old(Stacks)[h]]
      ensures !ok ==> Stacks == old(Stacks) && forall b :: 0 <= b < BlockCount ==> !pool.Free[b]
    {
      ghost var s := State();
      HeaderPath(s, h);
      ok, c := pool.Alloc();
      if !ok {
        assert State() == s;
        return;
      }
      pool.raw[c] := Header(pool.raw[h].root, pool.raw[h].top);
      var t := pool.raw[c].top;
      pool.raw[t] := WithCount(pool.raw[t], pool.raw[t].count + 1);
      paths := paths[c := paths[h]];
      Stacks := Stacks[c := Stacks[h]];
      CopyKeepsInv(s, h, c);
      assert State() == Copied(s, h, c);
    }

    /** `tregex_internal_stack_destroy` (tregex.c:126-134): pops down to the
        root, then drops the handle's reference to the root (freeing it when
        it was the last) and frees the header. */
    method Destroy(h: int)
      requires Valid() && h in Stacks
      modifies this, pool, pool.bitmap, pool.raw
      ensures Valid() && Stacks == old(Stacks) - {h}
    {
      while pool.raw[h].top != pool.raw[h].root
        invariant Valid() && h in Stacks
        invariant Stacks == old(Stacks)[h := Stacks[h]]
        decreases |Stacks[h]|
      {
        HeaderPath(State(), h);
        var popped := Pop(h);
      }
      ghost var s := State();
      HeaderPath(s, h);
      var root := pool.raw[h].root;
      if pool.raw[root].count == 1 {
        pool.Release(root);
      } else {
        pool.raw[root] := WithCount(pool.raw[root], pool.raw[root].count - 1);
      }
      pool.Release(h);
      Stacks := Stacks - {h};
      ReleaseKeepsInv(s, h);
      assert State() == Released(s, h);
    }
  }
}

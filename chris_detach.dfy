/**
 * One round of the pruning loop of `rmv` (src/christree.c): `unlink_node`
 * takes a childless node out of its layer chain (`unlink_layer`) and out of
 * its parent's child array (`rmv_next`), and `del` frees it. The lemmas show
 * that the round keeps the tree valid and drops exactly the node's own key
 * from the abstract view.
 */
module ChrisDetach {
  import opened Wrappers
  import opened ChrisNode
  import opened ChrisShape
  import opened ChrisLayer
  import opened ChrisUpdate

  /** The arena after `rmv_next(prev, n)` and `del(n)`. */
  function Cut<D>(h: Heap<D>, n: Ref): Heap<D>
    requires n in h && h[n].prev.Some? && h[n].prev.value in h && ChildrenIn(h)
  {
    var p := h[n].prev.value;
    h[p := WithoutChild(h, p, n)] - {n}
  }

  /** What `Detached` needs to be defined: `n` has a parent and sits on the chain of its layer. */
  ghost predicate DetachReady<D>(s: Shape<D>, n: Ref)
  {
    && n in s.h && n in s.paths && n in s.links && ChildrenIn(s.h)
    && s.h[n].prev.Some? && s.h[n].prev.value in s.h
    && 0 <= s.h[n].layer < |s.chains| && |s.layers| == |s.chains|
    && LinksFor(s.links, s.chains[s.h[n].layer]) && n in s.chains[s.h[n].layer]
  }

  /**
   * The tree after one pruning round of `rmv` on node `n`: it is gone from
   * its parent, from its layer chain (whose head moves on when `n` was the
   * head) and from the arena, and its key prefix no longer leads anywhere.
   */
  function Detached<D>(s: Shape<D>, n: Ref): Shape<D>
    requires DetachReady(s, n)
  {
    var d := s.h[n].layer;
    var c := s.chains[d];
    var k := IndexOf(c, n);
    Shape(Cut(s.h, n), UnlinkedFrom(s.links, c, k) - {n}, s.chains[d := Remove(c, k)],
          s.layers[d := Layer(if k == 0 then s.links[n].after else s.layers[d].node, s.layers[d].nodeNum - 1)],
          s.paths - {n}, s.at - {s.paths[n]}, s.nextRef)
  }

  /** What cutting `n` leaves of the arena: all but `n`, with only the parent's child array changed. */
  lemma CutParent<D>(h: Heap<D>, root: Ref, L: nat, n: Ref)
    requires VerticalOk(h, root, L) && n in h && n != root
    ensures h[n].prev.Some? && h[n].prev.value in h
    ensures var p := h[n].prev.value;
            var h2 := Cut(h, n);
            && p != n && n in h[p].next
            && h2.Keys == h.Keys - {n}
            && (forall x :: x in h2 && x != p ==> h2[x] == h[x])
            && h2[p].prev == h[p].prev && h2[p].layer == h[p].layer && h2[p].dif == h[p].dif
            && h2[p].data == h[p].data
            && (forall y :: y in h2[p].next <==> y in h[p].next && y != n)
            && Slotted(h2, p)
  {
    assert NodeOk(h, root, L, n);
    var p := h[n].prev.value;
    assert NodeOk(h, root, L, p);
    CutChildren(h, p, n);
  }

  /** `rmv_next` on a sorted child array drops exactly `n` and keeps it sorted. */
  lemma CutChildren<D>(h: Heap<D>, p: Ref, n: Ref)
    requires ChildrenIn(h) && p in h && n in h && p != n && h[n].prev == Some(p)
    requires Slotted(h, p) && n in h[p].next
    ensures (forall y :: y in Cut(h, n)[p].next <==> y in h[p].next && y != n)
    ensures Slotted(Cut(h, n), p)
  {
    var s := h[p].next;
    var i :| 0 <= i < |s| && s[i] == n;
    StrictlySortedFirst(h, s, i);
    StrictlySortedDistinct(h, s);
    RemoveHas(s, i);
    RemoveKeepsStrictlySorted(h, s, i);
    var h2 := Cut(h, n);
    var t := Remove(s, i);
    assert h2[p].next == t;
    StrictlySortedFrame(h, h2, t);
  }

  /** The cut node's layer is one below its parent's. */
  lemma CutNodeOk<D>(h: Heap<D>, root: Ref, L: nat, n: Ref, r: Ref)
    requires VerticalOk(h, root, L) && n in h && n != root && h[n].next == []
    requires h[n].prev.Some? && h[n].prev.value in h && r in Cut(h, n)
    ensures ChildrenIn(Cut(h, n))
    ensures NodeOk(Cut(h, n), root, L, r)
  {
    CutParent(h, root, L, n);
    var h2 := Cut(h, n);
    var p := h[n].prev.value;
    assert ChildrenIn(h2) by {
      forall x | x in h2
        ensures AllIn(h2, h2[x].next)
      {
        if x != p {
          CutOtherChildren(h, root, L, n, x);
        }
      }
    }
    if r == p {
      CutParentOk(h, root, L, n);
    } else {
      CutOtherOk(h, root, L, n, r);
    }
  }

  /** No node but the parent has the cut node among its children. */
  lemma CutOtherChildren<D>(h: Heap<D>, root: Ref, L: nat, n: Ref, x: Ref)
    requires VerticalOk(h, root, L) && n in h && n != root
    requires h[n].prev.Some? && h[n].prev.value in h
    requires x in h && x != n && x != h[n].prev.value
    ensures n !in h[x].next && AllIn(Cut(h, n), h[x].next)
  {
    CutParent(h, root, L, n);
    assert NodeOk(h, root, L, x) && NodeOk(h, root, L, n);
    assert forall y :: y in h[x].next ==> h[y].prev == Some(x);
  }

  lemma CutParentOk<D>(h: Heap<D>, root: Ref, L: nat, n: Ref)
    requires VerticalOk(h, root, L) && n in h && n != root
    requires h[n].prev.Some? && h[n].prev.value in h && h[n].prev.value != n
    requires ChildrenIn(Cut(h, n))
    ensures NodeOk(Cut(h, n), root, L, h[n].prev.value)
  {
    CutParent(h, root, L, n);
    var h2 := Cut(h, n);
    var p := h[n].prev.value;
    assert NodeOk(h, root, L, p);
    var t := h2[p].next;
    forall i | 0 <= i < |t|
      ensures h2[t[i]].prev == Some(p)
    {
      assert t[i] in h[p].next;
      var j :| 0 <= j < |h[p].next| && h[p].next[j] == t[i];
    }
    if p != root {
      var q := h[p].prev.value;
      assert NodeOk(h, root, L, q);
      assert q != n by {
        assert h[q].layer + 1 == h[p].layer;
      }
    }
  }

  lemma CutOtherOk<D>(h: Heap<D>, root: Ref, L: nat, n: Ref, r: Ref)
    requires VerticalOk(h, root, L) && n in h && n != root && h[n].next == []
    requires h[n].prev.Some? && h[n].prev.value in h
    requires ChildrenIn(Cut(h, n))
    requires r in h && r != n && r != h[n].prev.value
    ensures NodeOk(Cut(h, n), root, L, r)
  {
    CutParent(h, root, L, n);
    CutOtherChildren(h, root, L, n, r);
    var h2 := Cut(h, n);
    var p := h[n].prev.value;
    assert NodeOk(h, root, L, r);
    var u := h[r].next;
    forall i | 0 <= i < |u|
      ensures u[i] in h2 && h2[u[i]].prev == h[u[i]].prev && h2[u[i]].dif == h[u[i]].dif
    {
      assert u[i] in h;
    }
    StrictlySortedFrame(h, h2, u);
    if r != root {
      var q := h[r].prev.value;
      assert q != n by {
        assert r in h[q].next;
      }
      if q == p {
        assert r in h2[p].next;
      }
    }
  }

  /** Cutting a childless non-root node keeps the vertical invariant. */
  lemma CutVertical<D>(h: Heap<D>, root: Ref, L: nat, n: Ref)
    requires VerticalOk(h, root, L) && n in h && n != root && h[n].next == []
    requires h[n].prev.Some? && h[n].prev.value in h
    ensures VerticalOk(Cut(h, n), root, L)
  {
    var h2 := Cut(h, n);
    CutParent(h, root, L, n);
    CutNodeOk(h, root, L, n, root);
    forall r | r in h2
      ensures NodeOk(h2, root, L, r)
    {
      CutNodeOk(h, root, L, n, r);
    }
  }

  /** Cutting a node forgets its key prefix and keeps every other node's. */
  lemma CutPaths<D>(h: Heap<D>, root: Ref, L: nat, paths: map<Ref, seq<Byte>>, at: map<seq<Byte>, Ref>, n: Ref)
    requires VerticalOk(h, root, L) && PathsOk(h, root, paths, at) && n in h && n != root
    requires h[n].prev.Some? && h[n].prev.value in h
    ensures PathsOk(Cut(h, n), root, paths - {n}, at - {paths[n]})
  {
    CutParent(h, root, L, n);
    var h2 := Cut(h, n);
    var paths' := paths - {n};
    var at' := at - {paths[n]};
    assert PathOk(h, root, paths, at, n);
    forall r | r in h2
      ensures PathOk(h2, root, paths', at', r)
    {
      assert PathOk(h, root, paths, at, r);
      assert h2[r].prev == h[r].prev && h2[r].dif == h[r].dif && h2[r].layer == h[r].layer;
    }
  }

  /** Cutting a node drops the payload of its own key, if any, and no other. */
  lemma CutPayloads<D>(h: Heap<D>, root: Ref, L: nat, paths: map<Ref, seq<Byte>>, at: map<seq<Byte>, Ref>, n: Ref)
    requires VerticalOk(h, root, L) && PathsOk(h, root, paths, at) && n in h && n != root
    requires h[n].prev.Some? && h[n].prev.value in h
    ensures Payloads(Cut(h, n), at - {paths[n]}) == Payloads(h, at) - {paths[n]}
  {
    CutParent(h, root, L, n);
  }

  /** Cutting changes no node's layer or byte, and frees only the cut node. */
  lemma CutFrame<D>(h: Heap<D>, n: Ref)
    requires n in h && h[n].prev.Some? && h[n].prev.value in h && ChildrenIn(h)
    ensures Cut(h, n).Keys == h.Keys - {n}
    ensures forall x :: x in h && x != n ==> x in Cut(h, n) && Cut(h, n)[x].layer == h[x].layer && Cut(h, n)[x].dif == h[x].dif
  {
  }

  /** The chain fields of the detached shape, stated on the shape's parts. */
  lemma DetachFields<D>(s: Shape<D>, n: Ref)
    requires DetachReady(s, n)
    ensures var t := Detached(s, n);
            var d := s.h[n].layer;
            var c := s.chains[d];
            var k := IndexOf(c, n);
            && k < |c| && c[k] == n
            && t.h == Cut(s.h, n)
            && t.links == UnlinkedFrom(s.links, c, k) - {n}
            && t.chains == s.chains[d := Remove(c, k)]
            && t.layers == s.layers[d := Layer(if k == 0 then s.links[c[k]].after else s.layers[d].node,
                                              s.layers[d].nodeNum - 1)]
            && t.paths == s.paths - {n} && t.at == s.at - {s.paths[n]} && t.nextRef == s.nextRef
  {
  }

  /** `Detached`, field by field. */
  lemma DetachedParts<D>(s: Shape<D>, n: Ref, h2: Heap<D>, l2: map<Ref, Link>, c2: seq<seq<Ref>>,
                         ly2: seq<Layer>, pa2: map<Ref, seq<Byte>>, at2: map<seq<Byte>, Ref>, d: int, k: nat)
    requires DetachReady(s, n) && d == s.h[n].layer && k == IndexOf(s.chains[d], n)
    requires h2 == Cut(s.h, n)
    requires var c := s.chains[d];
             && l2 == UnlinkedFrom(s.links, c, k) - {n}
             && c2 == s.chains[d := Remove(c, k)]
             && ly2 == s.layers[d := Layer(if k == 0 then s.links[n].after else s.layers[d].node, s.layers[d].nodeNum - 1)]
    requires pa2 == s.paths - {n} && at2 == s.at - {s.paths[n]}
    ensures Shape(h2, l2, c2, ly2, pa2, at2, s.nextRef) == Detached(s, n)
  {
  }

  /** The chain of the cut node's layer loses it and stays valid. */
  lemma DetachChain<D>(h: Heap<D>, links: map<Ref, Link>, c: seq<Ref>, d: int, lay: Layer, k: nat, h2: Heap<D>)
    requires ChainOk(h, links, c, d, lay) && k < |c|
    requires forall x :: x in h && x != c[k] ==> x in h2 && h2[x].layer == h[x].layer && h2[x].dif == h[x].dif
    ensures LinksFor(links, c)
    ensures forall x :: x in Remove(c, k) <==> x in c && x != c[k]
    ensures ChainOk(h2, UnlinkedFrom(links, c, k) - {c[k]}, Remove(c, k), d,
                    Layer(if k == 0 then links[c[k]].after else lay.node, lay.nodeNum - 1))
  {
    var n := c[k];
    ChainRemove(h, links, c, d, lay, k);
    RemoveHas(c, k);
    var t := Remove(c, k);
    var l := UnlinkedFrom(links, c, k);
    forall j | 0 <= j < |t|
      ensures t[j] in h2 && h2[t[j]].layer == h[t[j]].layer && h2[t[j]].dif == h[t[j]].dif
      ensures t[j] in l - {n} && (l - {n})[t[j]] == l[t[j]]
    {
      assert t[j] in c && t[j] != n;
    }
    ChainFrame(h, l, t, d, Layer(if k == 0 then links[c[k]].after else lay.node, lay.nodeNum - 1), h2, l - {n});
  }

  /** Cutting a node out of its layer chain keeps every layer chain valid. */
  lemma CutChains<D>(h: Heap<D>, links: map<Ref, Link>, chains: seq<seq<Ref>>, layers: seq<Layer>,
                     root: Ref, L: nat, d: nat, k: nat,
                     h2: Heap<D>, l2: map<Ref, Link>, c2: seq<seq<Ref>>, ly2: seq<Layer>)
    requires ChainsOk(h, links, chains, layers, root, L) && root in h && h[root].layer < 0
    requires d < L && k < |chains[d]| && LinksFor(links, chains[d])
    requires h2.Keys == h.Keys - {chains[d][k]}
    requires forall x :: x in h && x != chains[d][k] ==> x in h2 && h2[x].layer == h[x].layer && h2[x].dif == h[x].dif
    requires l2 == UnlinkedFrom(links, chains[d], k) - {chains[d][k]}
    requires c2 == chains[d := Remove(chains[d], k)]
    requires ly2 == layers[d := Layer(if k == 0 then links[chains[d][k]].after else layers[d].node, layers[d].nodeNum - 1)]
    ensures ChainsOk(h2, l2, c2, ly2, root, L)
  {
    var c := chains[d];
    assert ChainOk(h, links, c, d, layers[d]);
    ChainLayer(h, links, c, d, layers[d]);
    DetachChain(h, links, c, d, layers[d], k, h2);
    UnlinkedFromFrame(links, c, k);
    ChainsSwap(h, links, chains, layers, root, L, h2, l2, d, Remove(c, k), ly2[d]);
  }

  /** One pruning round keeps every layer chain valid. */
  lemma DetachChains<D>(s: Shape<D>, root: Ref, L: nat, n: Ref)
    requires ChainsOk(s.h, s.links, s.chains, s.layers, root, L) && root in s.h && s.h[root].layer < 0
    requires DetachReady(s, n)
    ensures ChainsOk(Detached(s, n).h, Detached(s, n).links, Detached(s, n).chains, Detached(s, n).layers, root, L)
  {
    var t := Detached(s, n);
    var d := s.h[n].layer;
    DetachFields(s, n);
    CutFrame(s.h, n);
    CutChains(s.h, s.links, s.chains, s.layers, root, L, d, IndexOf(s.chains[d], n), t.h, t.links, t.chains, t.layers);
  }

  /** In a valid tree, every non-root node is ready to be detached. */
  lemma DetachPre<D>(s: Shape<D>, root: Ref, L: nat, n: Ref)
    requires Good(s, root, L) && n in s.h && n != root
    ensures DetachReady(s, n) && s.h[n].prev.value != n
  {
    assert NodeOk(s.h, root, L, n) && Chained(s.h, s.chains, root, L, n);
    var d := s.h[n].layer;
    assert ChainOk(s.h, s.links, s.chains[d], d, s.layers[d]);
  }

  /** One pruning round on a childless node keeps the tree valid and frees exactly that node. */
  lemma DetachOk<D>(s: Shape<D>, root: Ref, L: nat, n: Ref)
    requires Good(s, root, L) && n in s.h && n != root && s.h[n].next == []
    ensures DetachReady(s, n)
    ensures Good(Detached(s, n), root, L)
    ensures Detached(s, n).h.Keys == s.h.Keys - {n}
  {
    DetachPre(s, root, L, n);
    DetachFields(s, n);
    CutParent(s.h, root, L, n);
    CutVertical(s.h, root, L, n);
    CutPaths(s.h, root, L, s.paths, s.at, n);
    assert NodeOk(s.h, root, L, root);
    DetachChains(s, root, L, n);
  }

  /** One pruning round drops the payload of the node's own key and no other. */
  lemma DetachKeeps<D>(s: Shape<D>, root: Ref, L: nat, n: Ref)
    requires Good(s, root, L) && n in s.h && n != root
    ensures DetachReady(s, n)
    ensures Payloads(Detached(s, n).h, Detached(s, n).at) == Payloads(s.h, s.at) - {s.paths[n]}
  {
    DetachPre(s, root, L, n);
    DetachFields(s, n);
    CutPayloads(s.h, root, L, s.paths, s.at, n);
  }
}

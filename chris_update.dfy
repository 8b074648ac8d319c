/**
 * The two structural steps of the christree and why they keep it valid.
 *
 * Attach is one round of the `add` loop (src/christree.c) when the next key
 * byte has no child yet: `new` makes the node, `link_node` registers it with
 * its parent (`add_next`) and its layer (`link_layer`). Detach is one round
 * of the pruning loop of `rmv`: `unlink_node` takes a childless node out of
 * its layer (`unlink_layer`) and its parent (`rmv_next`) and `del` frees it.
 */
module ChrisUpdate {
  import opened Wrappers
  import opened ChrisNode
  import opened ChrisShape
  import opened ChrisLayer

  /** Everything a `struct dbs_christree` holds, with the ghost chains, paths and their inverse. */
  datatype Shape<D> = Shape(h: Heap<D>, links: map<Ref, Link>, chains: seq<seq<Ref>>, layers: seq<Layer>,
                            paths: map<Ref, seq<Byte>>, at: map<seq<Byte>, Ref>, nextRef: Ref)

  /** The whole invariant of a tree with `L` layers. */
  ghost predicate Good<D>(s: Shape<D>, root: Ref, L: nat)
  {
    && 1 <= L
    && VerticalOk(s.h, root, L)
    && PathsOk(s.h, root, s.paths, s.at)
    && ChainsOk(s.h, s.links, s.chains, s.layers, root, L)
    && Fresh(s.h, s.nextRef)
  }

  /** The tree `init(lim)` returns: a childless root on layer -1 for the empty prefix, and `lim` empty layers. */
  function Init<D>(lim: nat): Shape<D>
  {
    Shape(map[0 := Node(None, [], NEXT_MIN, -1, 0, None)], map[0 := Link(None, None)],
          seq(lim, _ => []), seq(lim, _ => Layer(None, 0)), map[0 := []], map[[] := 0], 1)
  }

  /** A fresh tree is valid and stores nothing. */
  lemma InitOk<D>(lim: nat)
    requires 1 <= lim
    ensures Good(Init<D>(lim), 0, lim)
    ensures Payloads(Init<D>(lim).h, Init<D>(lim).at) == map[]
  {
    var s := Init<D>(lim);
    assert NodeOk(s.h, 0, lim, 0);
    assert PathOk(s.h, 0, s.paths, s.at, 0);
    forall d | 0 <= d < lim
      ensures ChainOk(s.h, s.links, s.chains[d], d, s.layers[d])
    {
    }
  }

  /** A handle added to a map and dropped again leaves the map as it was. */
  lemma AddDrop<V>(m: map<Ref, V>, k: Ref, v: V)
    requires k !in m
    ensures m[k := v] - {k} == m
  {
  }

  /** The allocator may move on past handles it has used up: validity does not depend on them. */
  lemma Later<D>(s: Shape<D>, root: Ref, L: nat, k: Ref)
    requires Good(s, root, L) && s.nextRef <= k
    ensures Good(s.(nextRef := k), root, L)
  {
  }

  /** The node `new(p, layer, dif)` returns: no payload, no links, no children, NEXT_MIN slots. */
  function Blank<D>(p: Ref, layer: int, dif: Byte): Node<D>
  {
    Node(Some(p), [], NEXT_MIN, layer, dif, None)
  }

  /** The arena after `new` has made node `m` under `p` and `add_next` has registered it. */
  function Grafted<D>(h: Heap<D>, p: Ref, m: Ref, b: Byte): Heap<D>
    requires p in h && ChildrenIn(h)
  {
    var h1 := h[m := Blank(p, h[p].layer + 1, b)];
    h1[p := WithChild(h1, p, m)]
  }

  /** What `Attached` needs to be defined: `p` is a node with a layer below it. */
  ghost predicate AttachReady<D>(s: Shape<D>, p: Ref)
  {
    && p in s.h && p in s.paths && ChildrenIn(s.h) && 0 <= s.h[p].layer + 1 < |s.chains| && |s.layers| == |s.chains|
    && LinksFor(s.links, s.chains[s.h[p].layer + 1]) && AllIn(s.h, s.chains[s.h[p].layer + 1])
  }

  /**
   * The tree after one creating round of `add` under node `p` for byte `b`:
   * the fresh handle is linked into its parent and into its layer chain, and
   * it stands for the key prefix of `p` extended by `b`.
   */
  function Attached<D>(s: Shape<D>, p: Ref, b: Byte): Shape<D>
    requires AttachReady(s, p)
  {
    var m := s.nextRef;
    var d := s.h[p].layer + 1;
    var h2 := Grafted(s.h, p, m, b);
    var c := s.chains[d];
    var i := InsertPos(h2, c, b);
    var l0 := s.links[m := Link(None, None)];
    Shape(h2, LinkedIn(l0, c, i, m), s.chains[d := Insert(c, i, m)],
          s.layers[d := Layer(if i == 0 then Some(m) else s.layers[d].node, s.layers[d].nodeNum + 1)],
          s.paths[m := s.paths[p] + [b]], s.at[s.paths[p] + [b] := m], m + 1)
  }

  /** `Attached`, field by field. */
  lemma AttachedParts<D>(s: Shape<D>, p: Ref, b: Byte, h2: Heap<D>, l2: map<Ref, Link>, c2: seq<seq<Ref>>,
                         ly2: seq<Layer>, pa2: map<Ref, seq<Byte>>, at2: map<seq<Byte>, Ref>, i: nat)
    requires AttachReady(s, p)
    requires h2 == Grafted(s.h, p, s.nextRef, b)
    requires AllIn(h2, s.chains[s.h[p].layer + 1]) && i == InsertPos(h2, s.chains[s.h[p].layer + 1], b)
    requires var d := s.h[p].layer + 1;
             var c := s.chains[d];
             && l2 == LinkedIn(s.links[s.nextRef := Link(None, None)], c, i, s.nextRef)
             && c2 == s.chains[d := Insert(c, i, s.nextRef)]
             && ly2 == s.layers[d := Layer(if i == 0 then Some(s.nextRef) else s.layers[d].node, s.layers[d].nodeNum + 1)]
    requires pa2 == s.paths[s.nextRef := s.paths[p] + [b]] && at2 == s.at[s.paths[p] + [b] := s.nextRef]
    ensures Shape(h2, l2, c2, ly2, pa2, at2, s.nextRef + 1) == Attached(s, p, b)
  {
  }

  /** The facts about the grafted parent's new child array that the cases below share. */
  lemma GraftedParent<D>(h: Heap<D>, p: Ref, m: Ref, b: Byte)
    requires ChildrenIn(h) && p in h && Slotted(h, p) && m !in h
    requires forall c :: c in h[p].next ==> h[c].dif != b
    ensures var h2 := Grafted(h, p, m, b);
            && h2.Keys == h.Keys + {m}
            && (forall x :: x in h && x != p ==> h2[x] == h[x])
            && h2[m] == Blank(p, h[p].layer + 1, b)
            && h2[p].prev == h[p].prev && h2[p].layer == h[p].layer && h2[p].dif == h[p].dif
            && h2[p].data == h[p].data
            && (forall y :: y in h2[p].next <==> y in h[p].next || y == m)
            && Slotted(h2, p)
  {
    var h1 := h[m := Blank(p, h[p].layer + 1, b)];
    var h2 := Grafted(h, p, m, b);
    var s := h[p].next;
    assert AllIn(h1, s);
    var pos := InsertPos(h1, s, b);
    InsertHas(s, pos, m);
    StrictlySortedFrame(h, h1, s);
    assert FirstWithDif(h1, s, h1[m].dif) == |s|;
    InsertKeepsStrictlySorted(h1, s, m);
    var t := Insert(s, pos, m);
    StrictlySortedFrame(h1, h2, t);
    assert h2[p].next == t;
  }

  lemma AttachNodeOk<D>(h: Heap<D>, root: Ref, L: nat, p: Ref, m: Ref, b: Byte, r: Ref)
    requires VerticalOk(h, root, L) && p in h && m !in h && h[p].layer + 1 < L
    requires forall c :: c in h[p].next ==> h[c].dif != b
    requires r in Grafted(h, p, m, b)
    ensures ChildrenIn(Grafted(h, p, m, b))
    ensures NodeOk(Grafted(h, p, m, b), root, L, r)
  {
    var h2 := Grafted(h, p, m, b);
    assert NodeOk(h, root, L, p);
    GraftedParent(h, p, m, b);
    assert ChildrenIn(h2) by {
      forall x | x in h2
        ensures AllIn(h2, h2[x].next)
      {
        if x != p && x != m {
          assert AllIn(h, h[x].next);
        }
      }
    }
    if r == m {
      assert NodeOk(h, root, L, p);
    } else if r == p {
      AttachParentOk(h, root, L, p, m, b);
    } else {
      AttachOtherOk(h, root, L, p, m, b, r);
    }
  }

  lemma AttachParentOk<D>(h: Heap<D>, root: Ref, L: nat, p: Ref, m: Ref, b: Byte)
    requires VerticalOk(h, root, L) && p in h && m !in h
    requires forall c :: c in h[p].next ==> h[c].dif != b
    requires ChildrenIn(Grafted(h, p, m, b))
    ensures NodeOk(Grafted(h, p, m, b), root, L, p)
  {
    var h2 := Grafted(h, p, m, b);
    assert NodeOk(h, root, L, p);
    GraftedParent(h, p, m, b);
    assert NodeOk(h, root, L, p);
    var t := h2[p].next;
    forall i | 0 <= i < |t|
      ensures h2[t[i]].prev == Some(p)
    {
      if t[i] != m {
        assert t[i] in h[p].next;
        var j :| 0 <= j < |h[p].next| && h[p].next[j] == t[i];
      }
    }
    if p != root {
      var q := h[p].prev.value;
      assert NodeOk(h, root, L, q);
      assert q != p;
    }
  }

  lemma AttachOtherOk<D>(h: Heap<D>, root: Ref, L: nat, p: Ref, m: Ref, b: Byte, r: Ref)
    requires VerticalOk(h, root, L) && p in h && m !in h
    requires forall c :: c in h[p].next ==> h[c].dif != b
    requires ChildrenIn(Grafted(h, p, m, b))
    requires r in h && r != p
    ensures NodeOk(Grafted(h, p, m, b), root, L, r)
  {
    var h2 := Grafted(h, p, m, b);
    assert NodeOk(h, root, L, p);
    GraftedParent(h, p, m, b);
    assert NodeOk(h, root, L, r);
    var u := h[r].next;
    forall i | 0 <= i < |u|
      ensures u[i] in h2 && h2[u[i]].prev == h[u[i]].prev && h2[u[i]].dif == h[u[i]].dif
    {
      assert u[i] in h;
    }
    StrictlySortedFrame(h, h2, u);
  }

  /** Attaching keeps the vertical invariant. */
  lemma AttachVertical<D>(h: Heap<D>, root: Ref, L: nat, p: Ref, m: Ref, b: Byte)
    requires VerticalOk(h, root, L) && p in h && m !in h && h[p].layer + 1 < L
    requires forall c :: c in h[p].next ==> h[c].dif != b
    ensures VerticalOk(Grafted(h, p, m, b), root, L)
  {
    var h2 := Grafted(h, p, m, b);
    AttachNodeOk(h, root, L, p, m, b, root);
    forall r | r in h2
      ensures NodeOk(h2, root, L, r)
    {
      AttachNodeOk(h, root, L, p, m, b, r);
    }
  }

  /** Attaching gives the new node the parent's key prefix extended by its byte, and keeps every other path. */
  lemma AttachPaths<D>(h: Heap<D>, root: Ref, L: nat, paths: map<Ref, seq<Byte>>, at: map<seq<Byte>, Ref>,
                       p: Ref, m: Ref, b: Byte)
    requires VerticalOk(h, root, L) && PathsOk(h, root, paths, at) && p in h && m !in h
    requires forall c :: c in h[p].next ==> h[c].dif != b
    requires paths[p] + [b] !in at
    ensures PathsOk(Grafted(h, p, m, b), root, paths[m := paths[p] + [b]], at[paths[p] + [b] := m])
  {
    var h2 := Grafted(h, p, m, b);
    var k := paths[p] + [b];
    var paths' := paths[m := k];
    var at' := at[k := m];
    assert NodeOk(h, root, L, p);
    GraftedParent(h, p, m, b);
    assert PathOk(h, root, paths, at, p);
    assert m != root;
    forall r | r in h2
      ensures PathOk(h2, root, paths', at', r)
    {
      if r != m {
        assert PathOk(h, root, paths, at, r) && NodeOk(h, root, L, r);
        assert paths[r] != k;
        assert h2[r].prev == h[r].prev && h2[r].dif == h[r].dif && h2[r].layer == h[r].layer;
        if r != root {
          assert h[r].prev.value != m;
        }
      }
    }
  }

  /** The fields of the attached shape, and the nodes whose layer and byte it keeps. */
  lemma AttachFields<D>(s: Shape<D>, p: Ref, b: Byte)
    requires AttachReady(s, p) && s.nextRef !in s.h && Slotted(s.h, p)
    requires forall c :: c in s.h[p].next ==> s.h[c].dif != b
    ensures var t := Attached(s, p, b);
            var m := s.nextRef;
            var d := s.h[p].layer + 1;
            var c := s.chains[d];
            && t.h == Grafted(s.h, p, m, b) && AllIn(t.h, c)
            && t.links == LinkedIn(s.links[m := Link(None, None)], c, InsertPos(t.h, c, b), m)
            && t.chains == s.chains[d := Insert(c, InsertPos(t.h, c, b), m)]
            && t.layers == s.layers[d := Layer(if InsertPos(t.h, c, b) == 0 then Some(m) else s.layers[d].node,
                                              s.layers[d].nodeNum + 1)]
            && (forall x :: x in s.h ==> x in t.h && t.h[x].layer == s.h[x].layer && t.h[x].dif == s.h[x].dif)
            && m in t.h && t.h[m].layer == d && t.h[m].dif == b
            && t.h.Keys == s.h.Keys + {m}
  {
    GraftedParent(s.h, p, s.nextRef, b);
  }

  /** The links the attaching round leaves alone: all but the new node's and its chain neighbours'. */
  lemma AttachLinks<D>(s: Shape<D>, p: Ref, b: Byte)
    requires AttachReady(s, p) && s.nextRef !in s.h && Slotted(s.h, p)
    requires forall c :: c in s.h[p].next ==> s.h[c].dif != b
    ensures var t := Attached(s, p, b);
            var m := s.nextRef;
            var c := s.chains[s.h[p].layer + 1];
            && (forall x :: x in s.links && x != m && x !in c ==> x in t.links && t.links[x] == s.links[x])
            && t.links.Keys == s.links.Keys + {m}
  {
    var t := Attached(s, p, b);
    var c := s.chains[s.h[p].layer + 1];
    assert t.links == LinkedIn(s.links[s.nextRef := Link(None, None)], c, InsertPos(t.h, c, b), s.nextRef);
    LinkedInFrame(s.links[s.nextRef := Link(None, None)], c, InsertPos(t.h, c, b), s.nextRef);
  }

  /** Attaching puts the new node into the chain of its own layer, which stays valid. */
  lemma AttachNewChain<D>(s: Shape<D>, root: Ref, L: nat, p: Ref, b: Byte)
    requires ChainsOk(s.h, s.links, s.chains, s.layers, root, L)
    requires AttachReady(s, p) && s.nextRef !in s.h && Slotted(s.h, p) && s.h[p].layer + 1 < L
    requires forall c :: c in s.h[p].next ==> s.h[c].dif != b
    ensures var d := s.h[p].layer + 1;
            ChainOk(Attached(s, p, b).h, Attached(s, p, b).links, Attached(s, p, b).chains[d], d,
                    Attached(s, p, b).layers[d])
  {
    AttachFields(s, p, b);
    var h, links, chains, layers, m := s.h, s.links, s.chains, s.layers, s.nextRef;
    var d := h[p].layer + 1;
    var c := chains[d];
    var t := Attached(s, p, b);
    var l0 := links[m := Link(None, None)];
    assert ChainOk(h, links, c, d, layers[d]);
    ChainFrame(h, links, c, d, layers[d], t.h, l0);
    ChainInserted(t.h, l0, c, d, layers[d], m, t.links, t.chains[d], t.layers[d]);
  }

  /** Attaching keeps every layer chain valid and puts the new node into its own layer's chain. */
  lemma AttachChains<D>(s: Shape<D>, root: Ref, L: nat, p: Ref, b: Byte)
    requires ChainsOk(s.h, s.links, s.chains, s.layers, root, L) && root in s.h && s.h[root].layer < 0
    requires AttachReady(s, p) && s.nextRef !in s.h && Slotted(s.h, p) && s.h[p].layer + 1 < L
    requires forall c :: c in s.h[p].next ==> s.h[c].dif != b
    ensures ChainsOk(Attached(s, p, b).h, Attached(s, p, b).links, Attached(s, p, b).chains,
                     Attached(s, p, b).layers, root, L)
  {
    AttachFields(s, p, b);
    AttachLinks(s, p, b);
    AttachNewChain(s, root, L, p, b);
    var t := Attached(s, p, b);
    var d := s.h[p].layer + 1;
    var c := s.chains[d];
    assert ChainOk(s.h, s.links, c, d, s.layers[d]);
    ChainLayer(s.h, s.links, c, d, s.layers[d]);
    InsertHas(c, InsertPos(t.h, c, b), s.nextRef);
    ChainsSwap(s.h, s.links, s.chains, s.layers, root, L, t.h, t.links, d, t.chains[d], t.layers[d]);
    assert t.chains == s.chains[d := t.chains[d]] && t.layers == s.layers[d := t.layers[d]];
  }

  /** Attaching changes no payload: the new node has none. */
  lemma AttachPayloads<D>(h: Heap<D>, root: Ref, L: nat, at: map<seq<Byte>, Ref>, p: Ref, m: Ref, b: Byte, k: seq<Byte>)
    requires VerticalOk(h, root, L) && p in h && m !in h
    requires forall c :: c in h[p].next ==> h[c].dif != b
    requires forall x :: x in at ==> at[x] in h
    requires k !in at
    ensures Payloads(Grafted(h, p, m, b), at[k := m]) == Payloads(h, at)
  {
    assert NodeOk(h, root, L, p);
    GraftedParent(h, p, m, b);
  }

  /** In a valid tree, a node above the last layer is ready for a child with a byte it has no child for. */
  lemma AttachPre<D>(s: Shape<D>, root: Ref, L: nat, p: Ref, b: Byte)
    requires Good(s, root, L) && p in s.h && s.h[p].layer + 1 < L && s.paths[p] + [b] !in s.at
    ensures AttachReady(s, p) && s.nextRef !in s.h && Slotted(s.h, p)
    ensures forall c :: c in s.h[p].next ==> s.h[c].dif != b
    ensures root in s.h && s.h[root].layer < 0
  {
    var d := s.h[p].layer + 1;
    assert NodeOk(s.h, root, L, p) && NodeOk(s.h, root, L, root);
    ChildLookup(s.h, root, L, s.paths, s.at, p, b);
    assert ChainOk(s.h, s.links, s.chains[d], d, s.layers[d]);
  }

  /** One creating round of `add` keeps the tree valid; the new node is the one fresh handle. */
  lemma AttachOk<D>(s: Shape<D>, root: Ref, L: nat, p: Ref, b: Byte)
    requires Good(s, root, L) && p in s.h && s.h[p].layer + 1 < L && s.paths[p] + [b] !in s.at
    ensures AttachReady(s, p)
    ensures Good(Attached(s, p, b), root, L)
    ensures s.nextRef !in s.h && Attached(s, p, b).h.Keys == s.h.Keys + {s.nextRef}
  {
    var m := s.nextRef;
    AttachPre(s, root, L, p, b);
    var t := Attached(s, p, b);
    assert t.h == Grafted(s.h, p, m, b) && t.paths == s.paths[m := s.paths[p] + [b]]
        && t.at == s.at[s.paths[p] + [b] := m];
    AttachVertical(s.h, root, L, p, m, b);
    AttachPaths(s.h, root, L, s.paths, s.at, p, m, b);
    AttachChains(s, root, L, p, b);
    AttachFresh(s, p, b);
  }

  /** The attaching round allocates exactly one handle, the next unused one. */
  lemma AttachFresh<D>(s: Shape<D>, p: Ref, b: Byte)
    requires AttachReady(s, p) && s.nextRef !in s.h && Slotted(s.h, p) && Fresh(s.h, s.nextRef)
    requires forall c :: c in s.h[p].next ==> s.h[c].dif != b
    ensures Attached(s, p, b).h.Keys == s.h.Keys + {s.nextRef}
    ensures Fresh(Attached(s, p, b).h, Attached(s, p, b).nextRef)
  {
    AttachFields(s, p, b);
  }

  /** One creating round of `add` changes no payload: the new node carries none. */
  lemma AttachKeeps<D>(s: Shape<D>, root: Ref, L: nat, p: Ref, b: Byte)
    requires Good(s, root, L) && p in s.h && s.h[p].layer + 1 < L && s.paths[p] + [b] !in s.at
    ensures AttachReady(s, p)
    ensures Payloads(Attached(s, p, b).h, Attached(s, p, b).at) == Payloads(s.h, s.at)
  {
    AttachPre(s, root, L, p, b);
    assert NodeOk(s.h, root, L, p);
    AttachPayloads(s.h, root, L, s.at, p, s.nextRef, b, s.paths[p] + [b]);
  }

  /** The tree after `add` has hung payload `v` on node `n` (`n_ptr->data = data`). */
  function WithData<D>(s: Shape<D>, n: Ref, v: D): Shape<D>
    requires n in s.h
  {
    s.(h := s.h[n := s.h[n].(data := Some(v))])
  }

  lemma SetDataVertical<D>(h: Heap<D>, root: Ref, L: nat, n: Ref, v: D)
    requires VerticalOk(h, root, L) && n in h && h[n].layer == L - 1
    ensures VerticalOk(h[n := h[n].(data := Some(v))], root, L)
  {
    var h2 := h[n := h[n].(data := Some(v))];
    assert ChildrenIn(h2) by {
      forall r | r in h2
        ensures AllIn(h2, h2[r].next)
      {
        assert AllIn(h, h[r].next);
      }
    }
    forall r | r in h2
      ensures NodeOk(h2, root, L, r)
    {
      assert NodeOk(h, root, L, r);
      StrictlySortedFrame(h, h2, h[r].next);
    }
  }

  lemma SetDataPaths<D>(h: Heap<D>, root: Ref, paths: map<Ref, seq<Byte>>, at: map<seq<Byte>, Ref>, n: Ref, v: D)
    requires PathsOk(h, root, paths, at) && n in h
    ensures PathsOk(h[n := h[n].(data := Some(v))], root, paths, at)
  {
    var h2 := h[n := h[n].(data := Some(v))];
    forall r | r in h2
      ensures PathOk(h2, root, paths, at, r)
    {
      assert PathOk(h, root, paths, at, r);
    }
  }

  lemma SetDataChains<D>(h: Heap<D>, links: map<Ref, Link>, chains: seq<seq<Ref>>, layers: seq<Layer>,
                         root: Ref, L: nat, n: Ref, v: D)
    requires ChainsOk(h, links, chains, layers, root, L) && n in h
    ensures ChainsOk(h[n := h[n].(data := Some(v))], links, chains, layers, root, L)
  {
    var h2 := h[n := h[n].(data := Some(v))];
    forall d | 0 <= d < L
      ensures ChainOk(h2, links, chains[d], d, layers[d])
    {
      assert ChainOk(h, links, chains[d], d, layers[d]);
      ChainFrame(h, links, chains[d], d, layers[d], h2, links);
    }
    forall r | r in h2
      ensures Chained(h2, chains, root, L, r)
    {
      assert Chained(h, chains, root, L, r);
    }
  }

  /** Changing the payload of a node on the last layer keeps the tree valid. */
  lemma SetDataOk<D>(s: Shape<D>, root: Ref, L: nat, n: Ref, v: D)
    requires Good(s, root, L) && n in s.h && s.h[n].layer == L - 1
    ensures Good(WithData(s, n, v), root, L)
  {
    SetDataVertical(s.h, root, L, n, v);
    SetDataPaths(s.h, root, s.paths, s.at, n, v);
    SetDataChains(s.h, s.links, s.chains, s.layers, root, L, n, v);
  }

  /** Hanging `v` on node `n` binds n's key prefix to `v` and leaves every other key as it was. */
  lemma SetDataKeeps<D>(s: Shape<D>, root: Ref, L: nat, n: Ref, v: D)
    requires Good(s, root, L) && n in s.h
    ensures s.paths[n] in s.at && s.at[s.paths[n]] == n
    ensures Payloads(WithData(s, n, v).h, s.at) == Payloads(s.h, s.at)[s.paths[n] := v]
  {
    assert PathOk(s.h, root, s.paths, s.at, n);
    assert forall k :: k in s.at && s.at[k] == n ==> k == s.paths[n];
    NewPayload(s.h, s.at, n, s.paths[n], v);
  }
}

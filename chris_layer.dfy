/**
 * The horizontal layer chains of the christree (src/christree.c,
 * `link_layer` and `unlink_layer`): what the relinking does to the
 * `before`/`after` links, and why the chain invariant survives it.
 */
module ChrisLayer {
  import opened Wrappers
  import opened ChrisNode
  import opened ChrisShape

  ghost predicate LinksFor(links: map<Ref, Link>, c: seq<Ref>)
  {
    forall i :: 0 <= i < |c| ==> c[i] in links
  }

  /**
   * The links after `link_layer` has put `n` at index `i` of chain `c`:
   * `n` points at its two neighbours and each neighbour points back at `n`.
   */
  function LinkedIn(links: map<Ref, Link>, c: seq<Ref>, i: nat, n: Ref): map<Ref, Link>
    requires i <= |c| && LinksFor(links, c)
  {
    var l1 := links[n := Link(if i == 0 then None else Some(c[i - 1]), if i < |c| then Some(c[i]) else None)];
    var l2 := if i > 0 then l1[c[i - 1] := links[c[i - 1]].(after := Some(n))] else l1;
    if i < |c| then l2[c[i] := links[c[i]].(before := Some(n))] else l2
  }

  /**
   * The links after `unlink_layer` has taken out index `k` of chain `c`: the
   * two neighbours point at each other. The removed node's own links are
   * left as they were, as in the C code.
   */
  function UnlinkedFrom(links: map<Ref, Link>, c: seq<Ref>, k: nat): map<Ref, Link>
    requires k < |c| && LinksFor(links, c)
  {
    var before := if k > 0 then Some(c[k - 1]) else None;
    var after := if k + 1 < |c| then Some(c[k + 1]) else None;
    var l1 := if k > 0 then links[c[k - 1] := links[c[k - 1]].(after := after)] else links;
    if k + 1 < |c| then l1[c[k + 1] := links[c[k + 1]].(before := before)] else l1
  }

  /** A chain stays valid when its nodes keep their layer, byte and links. */
  lemma ChainFrame<D>(h: Heap<D>, links: map<Ref, Link>, c: seq<Ref>, d: int, lay: Layer,
                      h': Heap<D>, links': map<Ref, Link>)
    requires ChainOk(h, links, c, d, lay)
    requires forall i :: 0 <= i < |c| ==>
               c[i] in h' && h'[c[i]].layer == h[c[i]].layer && h'[c[i]].dif == h[c[i]].dif
    requires forall i :: 0 <= i < |c| ==> c[i] in links' && links'[c[i]] == links[c[i]]
    ensures ChainOk(h', links', c, d, lay)
  {
    assert AllIn(h', c);
    assert Mirrored(links', c) by {
      forall i | 0 <= i < |c|
        ensures LinkAt(links', c, i)
      {
        MirroredAt(links, c, i);
      }
    }
    assert Sorted(h', c) by {
      forall i, j | 0 <= i < j < |c|
        ensures Signed(h'[c[i]].dif) <= Signed(h'[c[j]].dif)
      {
      }
    }
  }

  lemma MirroredInsertAt(links: map<Ref, Link>, c: seq<Ref>, i: nat, n: Ref, j: nat)
    requires Mirrored(links, c) && Distinct(c) && n !in c && i <= |c| && j <= |c|
    ensures LinksFor(links, c)
    ensures var t := Insert(c, i, n);
            var l := LinkedIn(links, c, i, n);
            t[j] in l && l[t[j]] == Link(if j == 0 then None else Some(t[j - 1]), if j + 1 < |t| then Some(t[j + 1]) else None)
  {
    var t := Insert(c, i, n);
    var l := LinkedIn(links, c, i, n);
    if j < i {
      MirroredAt(links, c, j);
      assert t[j] == c[j] && t[j + 1] == (if j + 1 < i then c[j + 1] else n);
      assert j > 0 ==> t[j - 1] == c[j - 1];
      if j < i - 1 {
        assert t[j] != n && t[j] != c[i - 1];
        assert i < |c| ==> t[j] != c[i];
      } else {
        assert i < |c| ==> c[i] != c[i - 1];
      }
    } else if j == i {
      assert t[j] == n;
      assert j > 0 ==> t[j - 1] == c[j - 1];
      assert j + 1 < |t| ==> t[j + 1] == c[j];
    } else {
      MirroredAt(links, c, j - 1);
      assert t[j] == c[j - 1];
      assert t[j - 1] == (if j - 1 == i then n else c[j - 2]);
      assert j + 1 < |t| ==> t[j + 1] == c[j];
      assert t[j] != n && (i > 0 ==> t[j] != c[i - 1]);
      if j > i + 1 {
        assert t[j] != c[i];
      }
    }
  }

  lemma MirroredRemoveAt(links: map<Ref, Link>, c: seq<Ref>, k: nat, j: nat)
    requires Mirrored(links, c) && Distinct(c) && k < |c| && j < |c| - 1
    ensures LinksFor(links, c)
    ensures var t := Remove(c, k);
            var l := UnlinkedFrom(links, c, k);
            t[j] in l && l[t[j]] == Link(if j == 0 then None else Some(t[j - 1]), if j + 1 < |t| then Some(t[j + 1]) else None)
  {
    if j < k {
      RemoveBelow(links, c, k, j);
    } else {
      RemoveAbove(links, c, k, j);
    }
  }

  /** `MirroredRemoveAt` for an index before the one taken out. */
  lemma RemoveBelow(links: map<Ref, Link>, c: seq<Ref>, k: nat, j: nat)
    requires Mirrored(links, c) && Distinct(c) && k < |c| && j < k
    ensures LinksFor(links, c)
    ensures var t := Remove(c, k);
            var l := UnlinkedFrom(links, c, k);
            t[j] in l && l[t[j]] == Link(if j == 0 then None else Some(t[j - 1]), if j + 1 < |t| then Some(t[j + 1]) else None)
  {
    var t := Remove(c, k);
    assert t[j] == c[j];
    assert j > 0 ==> t[j - 1] == c[j - 1];
    assert j + 1 < |t| ==> t[j + 1] == (if j + 1 < k then c[j + 1] else c[k + 1]);
    MirroredAt(links, c, j);
    if j < k - 1 {
      assert t[j] != c[k - 1];
      assert k + 1 < |c| ==> t[j] != c[k + 1];
    } else {
      assert k + 1 < |c| ==> c[k + 1] != c[k - 1];
      assert UnlinkedFrom(links, c, k)[c[k - 1]]
          == links[c[k - 1]].(after := if k + 1 < |c| then Some(c[k + 1]) else None);
    }
  }

  /** `MirroredRemoveAt` for an index at or after the one taken out. */
  lemma RemoveAbove(links: map<Ref, Link>, c: seq<Ref>, k: nat, j: nat)
    requires Mirrored(links, c) && Distinct(c) && k <= j < |c| - 1
    ensures LinksFor(links, c)
    ensures var t := Remove(c, k);
            var l := UnlinkedFrom(links, c, k);
            t[j] in l && l[t[j]] == Link(if j == 0 then None else Some(t[j - 1]), if j + 1 < |t| then Some(t[j + 1]) else None)
  {
    var t := Remove(c, k);
    assert t[j] == c[j + 1];
    assert j > 0 ==> t[j - 1] == (if j == k then c[k - 1] else c[j]);
    assert j + 1 < |t| ==> t[j + 1] == c[j + 2];
    assert k > 0 ==> t[j] != c[k - 1];
    MirroredAt(links, c, j + 1);
    if j > k {
      assert t[j] != c[k + 1];
      assert UnlinkedFrom(links, c, k)[t[j]] == links[c[j + 1]];
    } else {
      assert UnlinkedFrom(links, c, k)[t[j]]
          == links[c[k + 1]].(before := if k > 0 then Some(c[k - 1]) else None);
    }
  }

  /** Putting a handle not yet in a chain into it keeps the chain free of repeats. */
  lemma InsertDistinct(c: seq<Ref>, i: nat, n: Ref)
    requires Distinct(c) && n !in c && i <= |c|
    ensures Distinct(Insert(c, i, n))
  {
    var t := Insert(c, i, n);
    assert forall j :: 0 <= j < i ==> t[j] == c[j];
    assert t[i] == n;
    assert forall j :: i < j < |t| ==> t[j] == c[j - 1];
    forall j, k | 0 <= j < k < |t|
      ensures t[j] != t[k]
    {
      if j < i && k > i {
        assert t[j] == c[j] && t[k] == c[k - 1];
      } else if i < j {
        assert t[j] == c[j - 1] && t[k] == c[k - 1];
      }
    }
  }

  /**
   * `link_layer` on a valid chain: the node lands after every node with a
   * byte not above its own, the links stay mirror images, the head moves only
   * on a front insert and the count goes up by one.
   */
  lemma ChainInsert<D>(h: Heap<D>, links: map<Ref, Link>, c: seq<Ref>, d: int, lay: Layer, n: Ref)
    requires ChainOk(h, links, c, d, lay)
    requires n in h && n in links && h[n].layer == d && n !in c
    ensures LinksFor(links, c)
    ensures ChainOk(h, LinkedIn(links, c, InsertPos(h, c, h[n].dif), n),
                    Insert(c, InsertPos(h, c, h[n].dif), n), d,
                    Layer(if InsertPos(h, c, h[n].dif) == 0 then Some(n) else lay.node, lay.nodeNum + 1))
  {
    var i := InsertPos(h, c, h[n].dif);
    var t := Insert(c, i, n);
    var l := LinkedIn(links, c, i, n);
    InsertKeepsSorted(h, c, n);
    InsertDistinct(c, i, n);
    assert Mirrored(l, t) by {
      forall j | 0 <= j < |t|
        ensures LinkAt(l, t, j)
      {
        MirroredInsertAt(links, c, i, n, j);
      }
    }
  }

  /**
   * `unlink_layer` on a valid chain, taking out exactly the node at index
   * `k`: the neighbours are joined, the head moves on when the head goes, and
   * the count goes down by one.
   */
  lemma ChainRemove<D>(h: Heap<D>, links: map<Ref, Link>, c: seq<Ref>, d: int, lay: Layer, k: nat)
    requires ChainOk(h, links, c, d, lay) && k < |c|
    ensures LinksFor(links, c)
    ensures ChainOk(h, UnlinkedFrom(links, c, k), Remove(c, k), d,
                    Layer(if k == 0 then links[c[k]].after else lay.node, lay.nodeNum - 1))
  {
    var t := Remove(c, k);
    var l := UnlinkedFrom(links, c, k);
    RemoveKeepsSorted(h, c, k);
    MirroredAt(links, c, k);
    assert forall j :: 0 <= j < k ==> t[j] == c[j];
    assert forall j :: k <= j < |t| ==> t[j] == c[j + 1];
    assert Distinct(t) by {
      forall j, m | 0 <= j < m < |t|
        ensures t[j] != t[m]
      {
        if j < k && k <= m {
          assert t[m] == c[m + 1];
        } else if k <= j {
          assert t[j] == c[j + 1] && t[m] == c[m + 1];
        }
      }
    }
    assert Mirrored(l, t) by {
      forall j | 0 <= j < |t|
        ensures LinkAt(l, t, j)
      {
        MirroredRemoveAt(links, c, k, j);
      }
    }
  }

  /**
   * `unlink_layer` as the C writes it, through the `before` and `after` of
   * the node taken out, is the same as joining its chain neighbours.
   */
  lemma UnlinkAt(links: map<Ref, Link>, c: seq<Ref>, k: nat)
    requires Mirrored(links, c) && k < |c|
    ensures LinksFor(links, c)
    ensures var b := links[c[k]].before;
            var a := links[c[k]].after;
            && b == (if k == 0 then None else Some(c[k - 1]))
            && a == (if k + 1 < |c| then Some(c[k + 1]) else None)
            && (b.Some? ==> b.value in links)
            && (a.Some? ==> a.value in links)
            && UnlinkedFrom(links, c, k) ==
                 var l1 := if b.Some? then links[b.value := links[b.value].(after := a)] else links;
                 if a.Some? then l1[a.value := links[a.value].(before := b)] else l1
  {
    MirroredAt(links, c, k);
    if k > 0 {
      MirroredAt(links, c, k - 1);
    }
    if k + 1 < |c| {
      MirroredAt(links, c, k + 1);
    }
  }

  /** `ChainInsert`, for a state already given by name. */
  lemma ChainInserted<D>(h: Heap<D>, links: map<Ref, Link>, c: seq<Ref>, d: int, lay: Layer, n: Ref,
                         l2: map<Ref, Link>, c2: seq<Ref>, lay2: Layer)
    requires ChainOk(h, links, c, d, lay)
    requires n in h && n in links && h[n].layer == d && n !in c
    requires LinksFor(links, c) && InsertPos(h, c, h[n].dif) <= |c|
    requires l2 == LinkedIn(links, c, InsertPos(h, c, h[n].dif), n)
    requires c2 == Insert(c, InsertPos(h, c, h[n].dif), n)
    requires lay2 == Layer(if InsertPos(h, c, h[n].dif) == 0 then Some(n) else lay.node, lay.nodeNum + 1)
    ensures ChainOk(h, l2, c2, d, lay2)
  {
    ChainInsert(h, links, c, d, lay, n);
  }

  /** `ChainRemove`, for a state already given by name. */
  lemma ChainRemoved<D>(h: Heap<D>, links: map<Ref, Link>, c: seq<Ref>, d: int, lay: Layer, k: nat,
                        l2: map<Ref, Link>, c2: seq<Ref>, lay2: Layer)
    requires ChainOk(h, links, c, d, lay) && k < |c| && LinksFor(links, c)
    requires l2 == UnlinkedFrom(links, c, k) && c2 == Remove(c, k)
    requires lay2 == Layer(if k == 0 then links[c[k]].after else lay.node, lay.nodeNum - 1)
    ensures ChainOk(h, l2, c2, d, lay2)
  {
    ChainRemove(h, links, c, d, lay, k);
  }

  /** Every node of layer `d` but the root is on the chain of layer `d`. */
  lemma LayerChained<D>(h: Heap<D>, links: map<Ref, Link>, chains: seq<seq<Ref>>, layers: seq<Layer>,
                        root: Ref, L: nat, d: nat, x: Ref)
    requires ChainsOk(h, links, chains, layers, root, L) && d < L
    requires x in h && x != root && h[x].layer == d
    ensures x in chains[d]
  {
    assert Chained(h, chains, root, L, x);
  }

  /** `link_layer` touches only the new node and its chain neighbours. */
  lemma LinkedInFrame(links: map<Ref, Link>, c: seq<Ref>, i: nat, n: Ref)
    requires i <= |c| && LinksFor(links, c)
    ensures LinkedIn(links, c, i, n).Keys == links.Keys + {n}
    ensures forall x :: x in links && x != n && x !in c ==> LinkedIn(links, c, i, n)[x] == links[x]
  {
  }

  /** `unlink_layer` touches only the chain neighbours of the removed node. */
  lemma UnlinkedFromFrame(links: map<Ref, Link>, c: seq<Ref>, k: nat)
    requires k < |c| && LinksFor(links, c)
    ensures UnlinkedFrom(links, c, k).Keys == links.Keys
    ensures forall x :: x in links && x !in c ==> UnlinkedFrom(links, c, k)[x] == links[x]
  {
  }

  /** Every node on a valid chain of layer d sits on layer d. */
  lemma ChainLayer<D>(h: Heap<D>, links: map<Ref, Link>, c: seq<Ref>, d: int, lay: Layer)
    requires ChainOk(h, links, c, d, lay)
    ensures forall x :: x in c ==> x in h && h[x].layer == d
  {
    forall x | x in c
      ensures x in h && h[x].layer == d
    {
      var q :| 0 <= q < |c| && c[q] == x;
    }
  }

  /**
   * Swapping the chain of one layer `d` for a valid new chain `c2` keeps all
   * chains valid, provided the nodes off the old chain kept their layer, byte
   * and links, the old chain's surviving nodes are on the new one, and every
   * node that is new sits on layer d and on the new chain.
   */
  lemma ChainsSwap<D>(h: Heap<D>, links: map<Ref, Link>, chains: seq<seq<Ref>>, layers: seq<Layer>,
                      root: Ref, L: nat, h2: Heap<D>, l2: map<Ref, Link>, d: nat, c2: seq<Ref>, lay2: Layer)
    requires ChainsOk(h, links, chains, layers, root, L) && d < L
    requires ChainOk(h2, l2, c2, d, lay2)
    requires root in h2 && root !in chains[d] && l2.Keys == h2.Keys
    requires forall x :: x in h && x !in chains[d] ==>
               x in h2 && h2[x].layer == h[x].layer && h2[x].dif == h[x].dif && l2[x] == links[x]
    requires forall x :: x in chains[d] && x in h2 ==> x in c2
    requires forall x :: x in h2 && x !in h ==> h2[x].layer == d && x in c2
    ensures ChainsOk(h2, l2, chains[d := c2], layers[d := lay2], root, L)
  {
    var chains2 := chains[d := c2];
    var layers2 := layers[d := lay2];
    assert ChainOk(h, links, chains[d], d, layers[d]);
    ChainLayer(h, links, chains[d], d, layers[d]);
    forall e | 0 <= e < L
      ensures ChainOk(h2, l2, chains2[e], e, layers2[e])
    {
      if e != d {
        var ce := chains[e];
        assert ChainOk(h, links, ce, e, layers[e]);
        forall j | 0 <= j < |ce|
          ensures ce[j] in h2 && h2[ce[j]].layer == h[ce[j]].layer && h2[ce[j]].dif == h[ce[j]].dif
          ensures ce[j] in l2 && l2[ce[j]] == links[ce[j]]
        {
          assert ce[j] in h && h[ce[j]].layer == e;
        }
        ChainFrame(h, links, ce, e, layers[e], h2, l2);
      }
    }
    forall r | r in h2
      ensures Chained(h2, chains2, root, L, r)
    {
      if r in h {
        assert Chained(h, chains, root, L, r);
      }
    }
  }
}

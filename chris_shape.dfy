/**
 * The two linkage invariants of the christree and its abstract view.
 *
 * Vertical: each node's `prev` and its parent's child array agree, a child's
 * layer is its parent's plus one, child arrays are strictly sorted, and a
 * payload sits only on the last layer. Horizontal: layer d's chain, read from
 * `layer[d].node` along `after`, is exactly the nodes of layer d,
 * non-decreasing by byte, with `before`/`after` mirror images.
 *
 * The abstract view: `paths` gives each node the key prefix that leads to it
 * from the root and `at` is its inverse; the tree then stands for the map
 * from each full key to its payload (`Payloads`).
 */
module ChrisShape {
  import opened Wrappers
  import opened ChrisNode

  /** Every child handle of every node is allocated. */
  ghost predicate ChildrenIn<D>(h: Heap<D>)
  {
    forall r :: r in h ==> AllIn(h, h[r].next)
  }

  /** The child array of `r`: strictly sorted and below its slot count, itself at least NEXT_MIN. */
  ghost predicate Slotted<D>(h: Heap<D>, r: Ref)
    requires r in h
  {
    && AllIn(h, h[r].next) && StrictlySorted(h, h[r].next)
    && NEXT_MIN <= h[r].nextAlloc && |h[r].next| < h[r].nextAlloc
  }

  /** The vertical invariant at one node. */
  ghost predicate NodeOk<D>(h: Heap<D>, root: Ref, L: nat, r: Ref)
    requires r in h && ChildrenIn(h)
  {
    var n := h[r];
    && (forall i :: 0 <= i < |n.next| ==> h[n.next[i]].prev == Some(r))
    && Slotted(h, r)
    && (n.data.Some? ==> n.layer == L - 1)
    && (r == root ==> n.prev.None? && n.layer == -1)
    && (r != root ==>
          && n.prev.Some? && n.prev.value in h && r in h[n.prev.value].next
          && n.layer == h[n.prev.value].layer + 1 && 0 <= n.layer < L)
  }

  ghost predicate VerticalOk<D>(h: Heap<D>, root: Ref, L: nat)
  {
    root in h && ChildrenIn(h) && forall r {:trigger NodeOk(h, root, L, r)} :: r in h ==> NodeOk(h, root, L, r)
  }

  /** The key prefix of one node and the inverse map agree with its parent's. */
  ghost predicate PathOk<D>(h: Heap<D>, root: Ref, paths: map<Ref, seq<Byte>>,
                            at: map<seq<Byte>, Ref>, r: Ref)
    requires r in h && r in paths
  {
    && |paths[r]| == h[r].layer + 1
    && paths[r] in at && at[paths[r]] == r
    && (r == root ==> paths[r] == [])
    && (r != root && h[r].prev.Some? && h[r].prev.value in paths ==>
          paths[r] == paths[h[r].prev.value] + [h[r].dif])
  }

  ghost predicate PathsOk<D>(h: Heap<D>, root: Ref, paths: map<Ref, seq<Byte>>,
                             at: map<seq<Byte>, Ref>)
  {
    && paths.Keys == h.Keys
    && (forall r {:trigger PathOk(h, root, paths, at, r)} :: r in h ==> PathOk(h, root, paths, at, r))
    && (forall k :: k in at ==> at[k] in h && paths[at[k]] == k)
  }

  /** No handle occurs twice in `c`. */
  ghost predicate Distinct(c: seq<Ref>)
  {
    forall i, j :: 0 <= i < j < |c| ==> c[i] != c[j]
  }

  /** Along `c`, each node's `before`/`after` name its neighbours in the chain. */
  ghost predicate Mirrored(links: map<Ref, Link>, c: seq<Ref>)
  {
    && (forall i :: 0 <= i < |c| ==> c[i] in links)
    && (forall i :: 0 <= i < |c| ==> LinkAt(links, c, i))
  }

  /** Member `i` of chain `c` links back to its predecessor and on to its successor. */
  ghost predicate LinkAt(links: map<Ref, Link>, c: seq<Ref>, i: int)
  {
    0 <= i < |c| && c[i] in links &&
    links[c[i]] == Link(if i == 0 then None else Some(c[i - 1]),
                        if i + 1 < |c| then Some(c[i + 1]) else None)
  }

  /** The links of one member of a mirrored chain. */
  lemma MirroredAt(links: map<Ref, Link>, c: seq<Ref>, k: nat)
    requires Mirrored(links, c) && k < |c|
    ensures c[k] in links
    ensures links[c[k]].before == (if k == 0 then None else Some(c[k - 1]))
    ensures links[c[k]].after == (if k + 1 < |c| then Some(c[k + 1]) else None)
  {
    assert LinkAt(links, c, k);
  }

  /** Layer d's chain `c`, its links and its `struct dbs_christree_layer` agree. */
  ghost predicate ChainOk<D>(h: Heap<D>, links: map<Ref, Link>, c: seq<Ref>, d: int, lay: Layer)
  {
    && AllIn(h, c)
    && (forall i :: 0 <= i < |c| ==> h[c[i]].layer == d)
    && Distinct(c)
    && Sorted(h, c)
    && Mirrored(links, c)
    && lay.node == (if c == [] then None else Some(c[0]))
    && lay.nodeNum == |c|
  }

  ghost predicate ChainsOk<D>(h: Heap<D>, links: map<Ref, Link>, chains: seq<seq<Ref>>,
                              layers: seq<Layer>, root: Ref, L: nat)
  {
    && |chains| == L && |layers| == L
    && links.Keys == h.Keys
    && root in links && links[root] == Link(None, None)
    && (forall d {:trigger ChainOk(h, links, chains[d], d, layers[d])} ::
          0 <= d < L ==> ChainOk(h, links, chains[d], d, layers[d]))
    && (forall r {:trigger Chained(h, chains, root, L, r)} :: r in h ==> Chained(h, chains, root, L, r))
  }

  /** A non-root node is on the chain of its own layer. */
  ghost predicate Chained<D>(h: Heap<D>, chains: seq<seq<Ref>>, root: Ref, L: nat, r: Ref)
    requires r in h && |chains| == L
  {
    r != root && 0 <= h[r].layer < L ==> r in chains[h[r].layer]
  }

  /** Every handle in use is below the allocator's next fresh handle. */
  ghost predicate Fresh<D>(h: Heap<D>, nextRef: Ref)
  {
    forall r :: r in h ==> r < nextRef
  }

  /** No structural node is left dangling: every non-root node has a child or a payload. */
  ghost predicate Pruned<D>(h: Heap<D>, root: Ref)
  {
    forall r :: r in h && r != root ==> h[r].next != [] || h[r].data.Some?
  }

  /** `Pruned`, except perhaps at node `n`, which `add` is still extending. */
  ghost predicate PrunedBut<D>(h: Heap<D>, root: Ref, n: Ref)
  {
    forall r :: r in h && r != root && r != n ==> h[r].next != [] || h[r].data.Some?
  }

  /** Going down to a child of `n`: `n` now has a child, so only the child may be bare. */
  lemma PrunedDown<D>(h: Heap<D>, root: Ref, n: Ref, c: Ref)
    requires n in h && c in h[n].next && PrunedBut(h, root, n)
    ensures PrunedBut(h, root, c)
  {
  }

  /** Hanging a new child `m` under `n` and changing no other old node keeps `PrunedBut` on `m`. */
  lemma PrunedGrow<D>(h0: Heap<D>, h1: Heap<D>, root: Ref, n: Ref, m: Ref)
    requires PrunedBut(h0, root, n) && n in h1 && m in h1[n].next
    requires h1.Keys == h0.Keys + {m}
    requires forall x :: x in h0 && x != n ==> h1[x] == h0[x]
    ensures PrunedBut(h1, root, m)
  {
  }

  /** Adding node `m` with prefix `k` keeps every old node's prefix. */
  lemma PathsGrow<D>(h0: Heap<D>, h1: Heap<D>, p0: map<Ref, seq<Byte>>, p1: map<Ref, seq<Byte>>,
                     m: Ref, k: seq<Byte>)
    requires h0.Keys <= p0.Keys && m !in h0 && h1.Keys == h0.Keys + {m} && p1 == p0[m := k]
    ensures h0.Keys <= h1.Keys && forall r :: r in h0 ==> p1[r] == p0[r]
    ensures forall r :: r in h1 && r !in h0 ==> p1[r] == k
  {
  }

  /**
   * Cutting the childless `n` and changing no other remaining node but its
   * parent `p` keeps `PrunedBut` on `p`.
   */
  lemma PrunedShrink<D>(h0: Heap<D>, h1: Heap<D>, root: Ref, n: Ref, p: Ref)
    requires PrunedBut(h0, root, n) && h1.Keys == h0.Keys - {n}
    requires forall x :: x in h1 && x != p ==> h1[x] == h0[x]
    ensures PrunedBut(h1, root, p)
  {
  }

  /** The parent's prefix of a node on a prefix of `k` is a strict prefix of `k`. */
  lemma UpOne(a: seq<Byte>, x: Byte, k: seq<Byte>)
    requires a + [x] <= k
    ensures a <= k && |a| < |k|
  {
    assert (a + [x])[..|a|] == a;
  }

  /**
   * Freeing `n`, on a prefix of `k`, keeps every node freed since `o` on a
   * prefix of `k`, and shrinks the arena.
   */
  lemma Shrunk(o: set<Ref>, op: map<Ref, seq<Byte>>, h0: set<Ref>, h1: set<Ref>, n: Ref, k: seq<Byte>)
    requires o <= op.Keys && n in h0 && h1 == h0 - {n} && n in op && op[n] <= k
    requires forall r :: r in o && r !in h0 ==> op[r] <= k
    ensures forall r :: r in o && r !in h1 ==> op[r] <= k
    ensures |h1| < |h0|
  {
  }

  /** Two rounds of freeing nodes on prefixes of `k` free only nodes on prefixes of `k`. */
  lemma Gone(h0: set<Ref>, h1: set<Ref>, h2: set<Ref>, p0: map<Ref, seq<Byte>>, p1: map<Ref, seq<Byte>>,
             n: Ref, k: seq<Byte>)
    requires h1 == h0 - {n} && n in p0 && p0[n] <= k && p1 == p0 - {n}
    requires forall r :: r in h1 && r !in h2 ==> r in p1 && p1[r] <= k
    ensures forall r :: r in h0 && r !in h2 ==> p0[r] <= k
  {
  }

  /** One more byte of `k`: the next prefix, still a prefix of `k`. */
  lemma SliceNext(k: seq<Byte>, i: nat)
    requires i < |k|
    ensures k[..i + 1] == k[..i] + [k[i]] && k[..i + 1] <= k
  {
  }

  /**
   * Nodes made since `o` all sit on prefixes of `k`, if those made since
   * `h0` sit on `q`, a prefix of `k`, and the older ones kept their prefixes.
   */
  lemma NewOnPrefix(o: set<Ref>, h0: set<Ref>, h1: set<Ref>, p0: map<Ref, seq<Byte>>,
                    p1: map<Ref, seq<Byte>>, k: seq<Byte>, q: seq<Byte>)
    requires h0 <= p0.Keys && h1 <= p1.Keys && h0 <= h1 && q <= k
    requires forall r :: r in h0 && r !in o ==> p0[r] <= k
    requires forall r :: r in h0 ==> p1[r] == p0[r]
    requires forall r :: r in h1 && r !in h0 ==> p1[r] == q
    ensures forall r :: r in h1 && r !in o ==> p1[r] <= k
  {
  }

  /** The abstract view: each key whose node carries a payload, mapped to that payload. */
  ghost function Payloads<D>(h: Heap<D>, at: map<seq<Byte>, Ref>): map<seq<Byte>, D>
  {
    map k | k in at && at[k] in h && h[at[k]].data.Some? :: h[at[k]].data.value
  }

  /** `x` is the payload of some key that starts with `pre`. */
  ghost predicate StoredUnder<D>(h: Heap<D>, at: map<seq<Byte>, Ref>, pre: seq<Byte>, x: D)
  {
    x in PayloadsUnder(h, at, pre).Values
  }

  /** A prefix whose node carries no payload is not a key of the abstract view. */
  lemma NoPayload<D>(h: Heap<D>, at: map<seq<Byte>, Ref>, k: seq<Byte>)
    requires k in at && at[k] in h && h[at[k]].data.None?
    ensures Payloads(h, at) - {k} == Payloads(h, at)
  {
    assert k !in Payloads(h, at);
  }

  /** Hanging `v` on the one node bound to `k` rebinds `k` to `v` and nothing else. */
  lemma NewPayload<D>(h: Heap<D>, at: map<seq<Byte>, Ref>, n: Ref, k: seq<Byte>, v: D)
    requires n in h && k in at && at[k] == n
    requires forall k' :: k' in at && at[k'] == n ==> k' == k
    ensures Payloads(h[n := h[n].(data := Some(v))], at) == Payloads(h, at)[k := v]
  {
    var h2 := h[n := h[n].(data := Some(v))];
    assert forall k' :: k' in at && k' != k ==> at[k'] != n;
  }

  /** The entries of the abstract view whose key starts with `pre`. */
  ghost function PayloadsUnder<D>(h: Heap<D>, at: map<seq<Byte>, Ref>, pre: seq<Byte>): map<seq<Byte>, D>
  {
    map k | k in Payloads(h, at) && pre <= k :: Payloads(h, at)[k]
  }

  /** All of `kids` are allocated and sit on layer `d`. */
  ghost predicate Layered<D>(h: Heap<D>, kids: seq<Ref>, d: int)
  {
    forall i :: 0 <= i < |kids| ==> kids[i] in h && h[kids[i]].layer == d
  }

  /** The children of a node sit one layer below it, which is at most the layer count. */
  lemma ChildLayers<D>(h: Heap<D>, root: Ref, L: nat, n: Ref)
    requires VerticalOk(h, root, L) && n in h
    ensures forall i :: 0 <= i < |h[n].next| ==>
              h[h[n].next[i]].prev == Some(n) && h[h[n].next[i]].layer == h[n].layer + 1
    ensures Layered(h, h[n].next, h[n].layer + 1) && h[n].layer + 1 <= L
    ensures n != root ==> 0 <= h[n].layer < L
  {
    assert NodeOk(h, root, L, root);
    assert NodeOk(h, root, L, n);
    forall i | 0 <= i < |h[n].next|
      ensures h[h[n].next[i]].layer == h[n].layer + 1
    {
      var c := h[n].next[i];
      assert NodeOk(h, root, L, c);
    }
  }

  /** A node of the last layer has no children. */
  lemma Childless<D>(h: Heap<D>, root: Ref, L: nat, n: Ref)
    requires VerticalOk(h, root, L) && n in h && h[n].layer == L - 1
    ensures h[n].next == []
  {
    ChildLayers(h, root, L, n);
    assert |h[n].next| == 0 || NodeOk(h, root, L, h[n].next[0]);
  }

  /**
   * `get_next` under the invariants: the child of `p` with byte `b` is the
   * node whose key prefix is p's prefix followed by `b`, if there is one.
   */
  lemma {:induction false} ChildLookup<D>(h: Heap<D>, root: Ref, L: nat, paths: map<Ref, seq<Byte>>,
                                          at: map<seq<Byte>, Ref>, p: Ref, b: Byte)
    requires VerticalOk(h, root, L) && PathsOk(h, root, paths, at) && p in h
    ensures GetNext(h, p, b) == (if paths[p] + [b] in at then Some(at[paths[p] + [b]]) else None)
  {
    assert NodeOk(h, root, L, p) && PathOk(h, root, paths, at, p);
    var k := paths[p] + [b];
    var g := GetNext(h, p, b);
    if g.Some? {
      var c := g.value;
      ChildLayers(h, root, L, p);
      assert c != root && h[c].prev == Some(p) by {
        assert NodeOk(h, root, L, root);
      }
      assert PathOk(h, root, paths, at, c);
      assert paths[c] == k;
    }
    if k in at {
      var c := at[k];
      assert PathOk(h, root, paths, at, c) && NodeOk(h, root, L, c);
      assert c != root;
      var q := h[c].prev.value;
      assert PathOk(h, root, paths, at, q);
      assert paths[c] == paths[q] + [h[c].dif];
      assert paths[q] == paths[c][..|paths[c]| - 1] == paths[p];
      assert h[c].dif == paths[c][|paths[c]| - 1] == b;
      assert q == p;
      var i :| 0 <= i < |h[p].next| && h[p].next[i] == c;
      StrictlySortedFirst(h, h[p].next, i);
    }
  }

  /** Every prefix of a key that leads to a node leads to a node too. */
  lemma {:induction false} PrefixClosed<D>(h: Heap<D>, root: Ref, L: nat, paths: map<Ref, seq<Byte>>,
                                           at: map<seq<Byte>, Ref>, k: seq<Byte>, j: nat)
    requires VerticalOk(h, root, L) && PathsOk(h, root, paths, at)
    requires k in at && j <= |k|
    ensures k[..j] in at
    decreases |k|
  {
    if j < |k| {
      var r := at[k];
      assert PathOk(h, root, paths, at, r) && NodeOk(h, root, L, r);
      assert r != root;
      var q := h[r].prev.value;
      assert PathOk(h, root, paths, at, q);
      assert paths[r] == paths[q] + [h[r].dif];
      var k' := paths[q];
      assert k' == k[..|k| - 1];
      PrefixClosed(h, root, L, paths, at, k', j);
      assert k'[..j] == k[..j];
    } else {
      assert k[..j] == k;
    }
  }

  /** A node whose prefix is a strict prefix of another node's has a child: the next node on that path. */
  lemma AncestorHasChild<D>(h: Heap<D>, root: Ref, L: nat, paths: map<Ref, seq<Byte>>,
                            at: map<seq<Byte>, Ref>, c: Ref, r: Ref)
    requires VerticalOk(h, root, L) && PathsOk(h, root, paths, at) && c in h && r in h
    requires paths[r] <= paths[c] && paths[r] != paths[c]
    ensures h[r].next != []
  {
    assert PathOk(h, root, paths, at, c) && PathOk(h, root, paths, at, r);
    var q := paths[c][..|paths[r]| + 1];
    PrefixClosed(h, root, L, paths, at, paths[c], |paths[r]| + 1);
    var s := at[q];
    assert PathOk(h, root, paths, at, s) && NodeOk(h, root, L, s);
    assert s != root;
    var p := h[s].prev.value;
    assert PathOk(h, root, paths, at, p);
    assert q[..|paths[r]|] == paths[r];
    assert paths[p] == paths[r];
    assert p == r;
  }

  /**
   * Freeing `n`, the deepest node left on key `k`, leaves its parent `p` the
   * deepest one: every remaining node on a prefix of `k` sits on a prefix of p's.
   */
  lemma StillBelow<D>(h0: Heap<D>, root: Ref, p0: map<Ref, seq<Byte>>, at0: map<seq<Byte>, Ref>,
                      h1: set<Ref>, p1: map<Ref, seq<Byte>>, n: Ref, p: Ref, k: seq<Byte>)
    requires PathsOk(h0, root, p0, at0) && n in h0 && n != root && h0[n].prev == Some(p)
    requires h1 == h0.Keys - {n} && p1 == p0 - {n} && p in h1
    requires forall r :: r in h0 && p0[r] <= k ==> p0[r] <= p0[n]
    ensures forall r :: r in h1 && p1[r] <= k ==> p1[r] <= p1[p]
  {
    assert PathOk(h0, root, p0, at0, n);
    forall r | r in h1 && p1[r] <= k
      ensures p1[r] <= p1[p]
    {
      assert PathOk(h0, root, p0, at0, r);
      var a, b := p0[r], p0[p] + [h0[n].dif];
      assert a <= b && a != b;
      assert a == b[..|a|] == p0[p][..|a|];
    }
  }

  /** Once the deepest node left on key `k` is the root or has a child, so is every node left on `k`. */
  lemma StopsBelow<D>(h: Heap<D>, root: Ref, L: nat, paths: map<Ref, seq<Byte>>,
                      at: map<seq<Byte>, Ref>, cur: Ref, k: seq<Byte>)
    requires VerticalOk(h, root, L) && PathsOk(h, root, paths, at) && cur in h
    requires cur == root || h[cur].next != []
    requires forall r :: r in h && paths[r] <= k ==> paths[r] <= paths[cur]
    ensures forall r :: r in h && paths[r] <= k ==> r == root || h[r].next != []
  {
    forall r | r in h && paths[r] <= k
      ensures r == root || h[r].next != []
    {
      assert PathOk(h, root, paths, at, r) && PathOk(h, root, paths, at, cur);
      if paths[r] != paths[cur] {
        AncestorHasChild(h, root, L, paths, at, cur, r);
      }
    }
  }

  /** Following `bs` from `n` one `get_next` at a time, as the loops of add, rmv and sel do. */
  function Descend<D>(h: Heap<D>, n: Ref, bs: seq<Byte>): (r: Option<Ref>)
    requires ChildrenIn(h) && n in h
    ensures r.Some? ==> r.value in h
    decreases |bs|
  {
    if bs == [] then Some(n)
    else match GetNext(h, n, bs[0])
      case None => None
      case Some(c) => Descend(h, c, bs[1..])
  }

  /**
   * Walking `bs` down from `n` reaches a node exactly when n's prefix followed
   * by `bs` is a prefix in the tree, and then it reaches that prefix's node.
   */
  lemma {:induction false} DescendFinds<D>(h: Heap<D>, root: Ref, L: nat, paths: map<Ref, seq<Byte>>,
                                           at: map<seq<Byte>, Ref>, n: Ref, bs: seq<Byte>)
    requires VerticalOk(h, root, L) && PathsOk(h, root, paths, at) && n in h
    ensures Descend(h, n, bs) == (if paths[n] + bs in at then Some(at[paths[n] + bs]) else None)
    decreases |bs|
  {
    assert PathOk(h, root, paths, at, n);
    if bs == [] {
      assert paths[n] + bs == paths[n];
    } else {
      ChildLookup(h, root, L, paths, at, n, bs[0]);
      var k1 := paths[n] + [bs[0]];
      var full := paths[n] + bs;
      assert full == k1 + bs[1..];
      if full in at {
        PrefixClosed(h, root, L, paths, at, full, |k1|);
        assert full[..|k1|] == k1;
      }
      if k1 in at {
        var c := at[k1];
        assert paths[c] == k1;
        DescendFinds(h, root, L, paths, at, c, bs[1..]);
      }
    }
  }

  /** What `sel_hlf` writes for the node `n` itself: its payload, if any. */
  function Own<D>(h: Heap<D>, n: Ref): seq<D>
    requires n in h
  {
    if h[n].data.Some? then [h[n].data.value] else []
  }

  /**
   * What `sel_hlf` collects from a subtree: the node's own payload, then its
   * children's subtrees in child-array order (pre-order).
   */
  ghost function Collect<D>(h: Heap<D>, root: Ref, L: nat, n: Ref): seq<D>
    requires VerticalOk(h, root, L) && n in h
    decreases L - h[n].layer, 1, 0
  {
    assert NodeOk(h, root, L, n);
    ChildLayers(h, root, L, n);
    Own(h, n) + CollectAll(h, root, L, h[n].next, h[n].layer + 1)
  }

  ghost function CollectAll<D>(h: Heap<D>, root: Ref, L: nat, kids: seq<Ref>, d: int): seq<D>
    requires VerticalOk(h, root, L) && Layered(h, kids, d) && d <= L
    decreases L - d + 1, 0, |kids|
  {
    if kids == [] then []
    else
      assert NodeOk(h, root, L, kids[0]);
      Collect(h, root, L, kids[0]) + CollectAll(h, root, L, kids[1..], d)
  }

  /** The first `m` elements of `s`, or all of `s` when it is shorter: what fits in a buffer of `m` slots. */
  function Truncate<T>(s: seq<T>, m: nat): (r: seq<T>)
    ensures |r| == if |s| <= m then |s| else m
    ensures r <= s
  {
    if |s| <= m then s else s[..m]
  }

  /** Filling a buffer with `a` and then `b`: `a` fits whole, `b` gets what room is left. */
  lemma TruncateAppend<T>(a: seq<T>, b: seq<T>, m: nat)
    requires |a| <= m
    ensures Truncate(a + b, m) == a + Truncate(b, m - |a|)
  {
    if |a + b| > m {
      assert (a + b)[..m] == a + b[..m - |a|];
    }
  }

  /**
   * The buffer after one more subtree: `got`, what `w` left in a buffer of
   * `m` slots, had room to spare, so `w` went in whole and the subtree
   * `x` got what room was left.
   */
  lemma BufferStep<T>(w: seq<T>, x: seq<T>, got: seq<T>, more: seq<T>, m: nat)
    requires got == Truncate(w, m) && |got| < m
    requires more == Truncate(x, m - |got|)
    ensures got + more == Truncate(w + x, m)
  {
    assert got == w;
    TruncateAppend(w, x, m);
  }

  /** The buffer when the loop ends: either it is full or nothing is left to write. */
  lemma BufferDone<T>(w: seq<T>, rest: seq<T>, got: seq<T>, m: nat)
    requires got == Truncate(w, m) && (|got| == m || rest == [])
    ensures got == Truncate(w + rest, m)
  {
    if rest == [] {
      assert w + rest == w;
    } else {
      TruncateLong(w, rest, m);
    }
  }

  /** Once `a` fills the buffer, whatever follows it is not written. */
  lemma TruncateLong<T>(a: seq<T>, b: seq<T>, m: nat)
    requires m <= |a|
    ensures Truncate(a + b, m) == Truncate(a, m)
  {
    assert (a + b)[..m] == a[..m];
  }

  /**
   * A call that may write only slots `c..c'` of a buffer, after earlier
   * writes only to slots `c0..c`: slots outside `c0..c'` still hold what
   * they held at first, and slots `c0..c` what they held before the call.
   */
  lemma Written<T>(o: seq<T>, a: seq<T>, b: seq<T>, c0: nat, c: nat, c': nat)
    requires |a| == |o| && |b| == |o| && c0 <= c <= c' <= |o|
    requires a[..c0] == o[..c0] && a[c..] == o[c..]
    requires b[..c] == a[..c] && b[c'..] == a[c'..]
    ensures b[..c0] == o[..c0] && b[c'..] == o[c'..]
    ensures b[c0..c'] == a[c0..c] + b[c..c']
  {
    assert b[..c0] == b[..c][..c0];
    assert b[c0..c] == b[..c][c0..];
    assert b[c'..] == a[c'..] == a[c..][c' - c..];
  }

  /**
   * The buffer after a node's own payload (slots `c0..c`) and a call that
   * wrote what followed it (slots `c..c'`): together they hold the first
   * `m` items of both.
   */
  lemma WrittenAfter<T>(o: seq<T>, a: seq<T>, b: seq<T>, c0: nat, c: nat, c': nat, w: seq<T>, x: seq<T>, m: nat)
    requires |a| == |o| && |b| == |o| && c0 <= c <= c' <= |o|
    requires a[..c0] == o[..c0] && a[c..] == o[c..]
    requires b[..c] == a[..c] && b[c'..] == a[c'..]
    requires a[c0..c] == Truncate(w, m) && c - c0 <= m
    requires b[c..c'] == Truncate(x, m - (c - c0))
    ensures b[..c0] == o[..c0] && b[c'..] == o[c'..]
    ensures b[c0..c'] == Truncate(w + x, m)
  {
    Written(o, a, b, c0, c, c');
    if c - c0 < m {
      BufferStep(w, x, a[c0..c], b[c..c'], m);
    } else {
      assert b[c..c'] == [];
      TruncateLong(w, x, m);
    }
  }

  /** Collecting two runs of siblings one after the other concatenates what each gives. */
  lemma {:induction false} CollectAllAppend<D>(h: Heap<D>, root: Ref, L: nat, a: seq<Ref>, b: seq<Ref>, d: int)
    requires VerticalOk(h, root, L) && Layered(h, a, d) && Layered(h, b, d) && d <= L
    ensures Layered(h, a + b, d)
    ensures CollectAll(h, root, L, a + b, d) == CollectAll(h, root, L, a, d) + CollectAll(h, root, L, b, d)
    decreases |a|
  {
    if a == [] {
      assert a + b == b;
    } else {
      assert (a + b)[1..] == a[1..] + b;
      CollectAllAppend(h, root, L, a[1..], b, d);
    }
  }

  /** One more sibling: what the first `i + 1` siblings give is what the first `i` give, then the next one's subtree. */
  lemma CollectStep<D>(h: Heap<D>, root: Ref, L: nat, kids: seq<Ref>, d: int, i: nat)
    requires VerticalOk(h, root, L) && Layered(h, kids, d) && d <= L && i < |kids|
    ensures Layered(h, kids[..i], d) && Layered(h, kids[..i + 1], d) && kids[i] in h
    ensures CollectAll(h, root, L, kids[..i + 1], d)
              == CollectAll(h, root, L, kids[..i], d) + Collect(h, root, L, kids[i])
  {
    assert kids[..i + 1] == kids[..i] + [kids[i]];
    CollectAllAppend(h, root, L, kids[..i], [kids[i]], d);
    assert [kids[i]][1..] == [];
  }

  /** What is collected below `n`: its own payload, then what its children give. */
  lemma CollectNode<D>(h: Heap<D>, root: Ref, L: nat, n: Ref)
    requires VerticalOk(h, root, L) && n in h
    ensures Layered(h, h[n].next, h[n].layer + 1) && h[n].layer + 1 <= L
    ensures Collect(h, root, L, n) == Own(h, n) + CollectAll(h, root, L, h[n].next, h[n].layer + 1)
  {
    ChildLayers(h, root, L, n);
  }

  /** What a run of siblings gives: what its first `i` give, then what the rest give. */
  lemma CollectRest<D>(h: Heap<D>, root: Ref, L: nat, kids: seq<Ref>, d: int, i: nat)
    requires VerticalOk(h, root, L) && Layered(h, kids, d) && d <= L && i <= |kids|
    ensures Layered(h, kids[..i], d) && Layered(h, kids[i..], d)
    ensures CollectAll(h, root, L, kids, d) == CollectAll(h, root, L, kids[..i], d) + CollectAll(h, root, L, kids[i..], d)
  {
    assert kids == kids[..i] + kids[i..];
    CollectAllAppend(h, root, L, kids[..i], kids[i..], d);
  }

  /**
   * The buffer when the loop over the siblings `kids` stops after `i` of
   * them: it holds the first `m` items of what all of them give.
   */
  lemma KidsDone<D>(h: Heap<D>, root: Ref, L: nat, kids: seq<Ref>, d: int, i: nat, got: seq<D>, m: nat)
    requires VerticalOk(h, root, L) && Layered(h, kids, d) && d <= L && i <= |kids|
    requires got == Truncate(CollectAll(h, root, L, kids[..i], d), m)
    requires |got| == m || i == |kids|
    ensures got == Truncate(CollectAll(h, root, L, kids, d), m)
  {
    CollectRest(h, root, L, kids, d, i);
    if i == |kids| {
      assert kids[i..] == [];
    }
    BufferDone(CollectAll(h, root, L, kids[..i], d), CollectAll(h, root, L, kids[i..], d), got, m);
  }

  /** What one sibling's subtree gives is part of what its sibling run gives. */
  lemma {:induction false} CollectAllHas<D>(h: Heap<D>, root: Ref, L: nat, kids: seq<Ref>, d: int, i: nat, x: D)
    requires VerticalOk(h, root, L) && Layered(h, kids, d) && d <= L && i < |kids|
    requires x in Collect(h, root, L, kids[i])
    ensures x in CollectAll(h, root, L, kids, d)
    decreases i
  {
    if i > 0 {
      CollectAllHas(h, root, L, kids[1..], d, i - 1, x);
    }
  }

  /** Everything collected below `n` is the payload of some key that starts with n's prefix. */
  lemma {:induction false} CollectSound<D>(h: Heap<D>, root: Ref, L: nat, paths: map<Ref, seq<Byte>>,
                                           at: map<seq<Byte>, Ref>, n: Ref, x: D)
    requires VerticalOk(h, root, L) && PathsOk(h, root, paths, at) && n in h
    requires x in Collect(h, root, L, n)
    ensures x in PayloadsUnder(h, at, paths[n]).Values
    decreases L - h[n].layer, 1, 0
  {
    assert NodeOk(h, root, L, n) && PathOk(h, root, paths, at, n);
    ChildLayers(h, root, L, n);
    var own: seq<D> := if h[n].data.Some? then [h[n].data.value] else [];
    var rest := CollectAll(h, root, L, h[n].next, h[n].layer + 1);
    assert Collect(h, root, L, n) == own + rest;
    if x in own {
      var k := paths[n];
      assert k in Payloads(h, at) && Payloads(h, at)[k] == x;
      assert k in PayloadsUnder(h, at, k);
    } else {
      CollectAllSound(h, root, L, paths, at, n, h[n].next, x);
    }
  }

  lemma {:induction false} CollectAllSound<D>(h: Heap<D>, root: Ref, L: nat, paths: map<Ref, seq<Byte>>,
                                              at: map<seq<Byte>, Ref>, n: Ref, kids: seq<Ref>, x: D)
    requires VerticalOk(h, root, L) && PathsOk(h, root, paths, at) && n in h
    requires Layered(h, kids, h[n].layer + 1) && h[n].layer + 1 <= L
    requires forall i :: 0 <= i < |kids| ==> h[kids[i]].prev == Some(n)
    requires x in CollectAll(h, root, L, kids, h[n].layer + 1)
    ensures x in PayloadsUnder(h, at, paths[n]).Values
    decreases L - h[n].layer, 0, |kids|
  {
    var d := h[n].layer + 1;
    var c := kids[0];
    assert NodeOk(h, root, L, c);
    if x in Collect(h, root, L, c) {
      CollectSound(h, root, L, paths, at, c, x);
      var k :| k in PayloadsUnder(h, at, paths[c]) && PayloadsUnder(h, at, paths[c])[k] == x;
      assert c != root by {
        assert NodeOk(h, root, L, root);
      }
      assert PathOk(h, root, paths, at, c);
      assert paths[c] == paths[n] + [h[c].dif];
      assert paths[n] <= k;
      assert k in PayloadsUnder(h, at, paths[n]);
    } else {
      CollectAllSound(h, root, L, paths, at, n, kids[1..], x);
    }
  }

  /** The payload of every key that starts with n's prefix is collected below `n`. */
  lemma {:induction false} CollectComplete<D>(h: Heap<D>, root: Ref, L: nat, paths: map<Ref, seq<Byte>>,
                                              at: map<seq<Byte>, Ref>, n: Ref, k: seq<Byte>)
    requires VerticalOk(h, root, L) && PathsOk(h, root, paths, at) && n in h
    requires k in Payloads(h, at) && paths[n] <= k
    ensures Payloads(h, at)[k] in Collect(h, root, L, n)
    decreases |k| - |paths[n]|
  {
    assert NodeOk(h, root, L, n) && PathOk(h, root, paths, at, n);
    ChildLayers(h, root, L, n);
    var m := |paths[n]|;
    if |k| == m {
      assert k == paths[n];
    } else {
      PrefixClosed(h, root, L, paths, at, k, m + 1);
      var c := at[k[..m + 1]];
      assert PathOk(h, root, paths, at, c) && NodeOk(h, root, L, c);
      assert paths[c] == k[..m + 1];
      assert c != root by {
        assert PathOk(h, root, paths, at, root);
      }
      var q := h[c].prev.value;
      assert PathOk(h, root, paths, at, q);
      assert paths[q] == paths[c][..m] == paths[n];
      assert q == n;
      var i :| 0 <= i < |h[n].next| && h[n].next[i] == c;
      CollectComplete(h, root, L, paths, at, c, k);
      CollectAllHas(h, root, L, h[n].next, h[n].layer + 1, i, Payloads(h, at)[k]);
    }
  }

  /**
   * What is collected below `n` is exactly the payloads of the keys that
   * start with n's prefix.
   */
  lemma CollectExact<D>(h: Heap<D>, root: Ref, L: nat, paths: map<Ref, seq<Byte>>,
                        at: map<seq<Byte>, Ref>, n: Ref)
    requires VerticalOk(h, root, L) && PathsOk(h, root, paths, at) && n in h
    ensures forall x :: x in Collect(h, root, L, n) <==> x in PayloadsUnder(h, at, paths[n]).Values
  {
    forall x | x in Collect(h, root, L, n)
      ensures x in PayloadsUnder(h, at, paths[n]).Values
    {
      CollectSound(h, root, L, paths, at, n, x);
    }
    forall x | x in PayloadsUnder(h, at, paths[n]).Values
      ensures x in Collect(h, root, L, n)
    {
      var k :| k in PayloadsUnder(h, at, paths[n]) && PayloadsUnder(h, at, paths[n])[k] == x;
      CollectComplete(h, root, L, paths, at, n, k);
    }
  }

  /** In a pruned tree every non-root node lies on the way to some payload. */
  lemma {:induction false} LeadsToPayload<D>(h: Heap<D>, root: Ref, L: nat, paths: map<Ref, seq<Byte>>,
                                             at: map<seq<Byte>, Ref>, r: Ref)
    requires VerticalOk(h, root, L) && PathsOk(h, root, paths, at) && Pruned(h, root)
    requires r in h && r != root
    ensures PayloadsUnder(h, at, paths[r]) != map[]
    decreases L - h[r].layer
  {
    assert NodeOk(h, root, L, r) && PathOk(h, root, paths, at, r);
    if h[r].data.Some? {
      assert paths[r] in PayloadsUnder(h, at, paths[r]);
    } else {
      ChildLayers(h, root, L, r);
      var c := h[r].next[0];
      assert c != root by {
        assert NodeOk(h, root, L, root);
      }
      LeadsToPayload(h, root, L, paths, at, c);
      var k :| k in PayloadsUnder(h, at, paths[c]);
      assert PathOk(h, root, paths, at, c);
      assert paths[c] == paths[r] + [h[c].dif];
      assert k in PayloadsUnder(h, at, paths[r]);
    }
  }

  /** A pruned tree holding any node besides the root holds some payload. */
  lemma NodeImpliesPayload<D>(h: Heap<D>, root: Ref, L: nat, paths: map<Ref, seq<Byte>>,
                              at: map<seq<Byte>, Ref>, r: Ref)
    requires VerticalOk(h, root, L) && PathsOk(h, root, paths, at) && Pruned(h, root)
    requires r in h && r != root
    ensures Payloads(h, at) != map[]
  {
    LeadsToPayload(h, root, L, paths, at, r);
    var k :| k in PayloadsUnder(h, at, paths[r]);
    assert k in Payloads(h, at);
  }
}

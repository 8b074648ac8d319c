/**
 * The christree of src/christree.c as a class: `struct dbs_christree` with
 * its nodes in an arena, and one method per C function. Each method states
 * the new state it leaves; the operations that keep the tree whole (`add`,
 * `rmv`) also state that the invariant `Valid` survives and what happens to
 * the abstract map from keys to payloads (`Contents`).
 */
module ChrisTree {
  import opened Wrappers
  import opened ChrisNode
  import opened ChrisShape
  import opened ChrisLayer
  import opened ChrisUpdate
  import opened ChrisDetach

  /**
   * Which allocation of an `add` fails, if any: the `malloc` of `new` in
   * round `step`, or the `realloc` of `add_next` in round `step` (which only
   * happens when the child array is full).
   */
  datatype Fault = NoFault | NodeFault(step: nat) | GrowFault(step: nat)

  /**
   * `struct dbs_chrismask`: the layer `off` to start at and the bytes `data`
   * to match from there, of which `sel` reads `len` (and always the first).
   */
  datatype Mask = Mask(off: int, len: int, data: seq<Byte>)
  {
    /** What the mask loop of `sel` reads after the first byte: `data[1..len]`. */
    function Tail(): (t: seq<Byte>)
      requires 1 <= |data| && len <= |data|
      ensures |t| == if len <= 1 then 0 else len - 1
      ensures forall i :: 0 <= i < |t| ==> t[i] == data[i + 1]
    {
      if len <= 1 then [] else data[1..len]
    }
  }

  class Tree<D> {
    /** `layer_num`: every key is exactly this many bytes long. */
    const layerNum: nat
    /** `root`: the node that stands for the empty prefix. */
    const root: Ref
    /** The node records, by handle; `before`/`after` are kept apart in `links`. */
    var nodes: Heap<D>
    var links: map<Ref, Link>
    /** `layer[0..layer_num-1]`. */
    var layers: seq<Layer>
    /** The allocator: the handle the next `malloc` of a node returns. */
    var nextRef: Ref
    /** Each layer's chain, head first, as a sequence. */
    ghost var chains: seq<seq<Ref>>
    /** The key prefix each node stands for, and its inverse. */
    ghost var paths: map<Ref, seq<Byte>>
    ghost var at: map<seq<Byte>, Ref>

    ghost function State(): Shape<D>
      reads this
    {
      Shape(nodes, links, chains, layers, paths, at, nextRef)
    }

    ghost predicate Valid()
      reads this
    {
      Good(State(), root, layerNum)
    }

    /** The map the tree stands for: each stored key with its `data`. */
    ghost function Contents(): map<seq<Byte>, D>
      reads this
    {
      Payloads(nodes, at)
    }

    /**
     * `dbs_christree_init(lim)`: a root with no parent, no children and
     * NEXT_MIN empty slots, and `lim` empty layers. The C leaves the root's
     * `layer`, `dif` and `data` unset and its slots uninitialised; here the
     * root's layer is -1 (so its children are on layer 0, as `add` makes
     * them), its byte 0, its payload absent and all its slots empty.
     */
    constructor(lim: nat)
      requires 1 <= lim
      ensures Valid() && Contents() == map[]
      ensures layerNum == lim && nodes == map[root := Node(None, [], NEXT_MIN, -1, 0, None)]
      ensures |layers| == lim && forall d :: 0 <= d < lim ==> layers[d] == Layer(None, 0)
    {
      layerNum := lim;
      root := 0;
      nodes := map[0 := Node(None, [], NEXT_MIN, -1, 0, None)];
      links := map[0 := Link(None, None)];
      nextRef := 1;
      var ls: seq<Layer> := [];
      var i := 0;
      while i < lim
        invariant 0 <= i <= lim && |ls| == i
        invariant forall d :: 0 <= d < i ==> ls[d] == Layer(None, 0)
      {
        ls := ls + [Layer(None, 0)];
        i := i + 1;
      }
      layers := ls;
      chains := seq(lim, _ => []);
      paths := map[0 := []];
      at := map[[] := 0];
      new;
      assert layers == seq(lim, _ => Layer(None, 0));
      InitOk<D>(lim);
      assert State() == Init<D>(lim);
    }

    /**
     * `dbs_christree_new(prev, layer, dif)`: a fresh node with the given parent,
     * layer and byte, no payload, no layer links, no children and NEXT_MIN
     * empty slots. `ok` is whether the allocation succeeds; when it does not,
     * NULL comes back and nothing changes.
     */
    method New(prev: Ref, layer: int, dif: Byte, ok: bool) returns (r: Option<Ref>)
      modifies this
      ensures !ok ==> r == None && unchanged(this)
      ensures ok ==> && r == Some(old(nextRef))
                     && nodes == old(nodes)[old(nextRef) := Blank(prev, layer, dif)]
                     && links == old(links)[old(nextRef) := Link(None, None)]
                     && nextRef == old(nextRef) + 1
                     && layers == old(layers) && chains == old(chains) && paths == old(paths) && at == old(at)
    {
      if !ok {
        return None;
      }
      r := Some(nextRef);
      nodes := nodes[nextRef := Blank(prev, layer, dif)];
      links := links[nextRef := Link(None, None)];
      nextRef := nextRef + 1;
    }

    /** `dbs_christree_del(n)`: frees the node and its child array. */
    method Del(n: Ref)
      modifies this
      ensures nodes == old(nodes) - {n} && links == old(links) - {n}
      ensures layers == old(layers) && nextRef == old(nextRef)
      ensures chains == old(chains) && paths == old(paths) && at == old(at)
    {
      nodes := nodes - {n};
      links := links - {n};
    }

    /**
     * `dbs_christree_add_next(p, c)`: registers `c` among the children of
     * `p`, before the first child whose byte is greater in `char` order, and
     * grows the slot array to ⌊1.5·alloc⌋ once the used count plus one
     * reaches it. `growOk` is whether that `realloc` succeeds; when it does
     * not, -1 comes back and nothing changes.
     *
     * The C never increments `next_used` here, so `get_next` could never find
     * the child; and its `memmove` moves `(used - i) + sizeof` bytes rather
     * than `used - i` slots. The contract states the evident intent: the used
     * children grow by one and the tail moves up by exactly one slot.
     */
    method AddNext(p: Ref, c: Ref, growOk: bool) returns (rc: int)
      requires p in nodes && c in nodes && AllIn(nodes, nodes[p].next)
      modifies this
      ensures var n := old(nodes[p]);
              if |n.next| + 1 >= n.nextAlloc && !growOk then rc == -1 && unchanged(this)
              else rc == 0 && nodes == old(nodes)[p := WithChild(old(nodes), p, c)]
      ensures links == old(links) && layers == old(layers) && nextRef == old(nextRef)
      ensures chains == old(chains) && paths == old(paths) && at == old(at)
    {
      var n := nodes[p];
      var alloc := n.nextAlloc;
      if |n.next| + 1 >= alloc {
        if !growOk {
          return -1;
        }
        alloc := alloc * 3 / 2;
      }
      var dif := nodes[c].dif;
      var i := 0;
      while i < |n.next| && Signed(nodes[n.next[i]].dif) <= Signed(dif)
        invariant 0 <= i <= |n.next|
        invariant forall j :: 0 <= j < i ==> Signed(nodes[n.next[j]].dif) <= Signed(dif)
      {
        i := i + 1;
      }
      assert i == InsertPos(nodes, n.next, dif);
      nodes := nodes[p := n.(next := n.next[..i] + [c] + n.next[i..], nextAlloc := alloc)];
      rc := 0;
    }

    /**
     * `dbs_christree_rmv_next(p, c)`: drops the first used child of `p` whose
     * byte is c's, moving the later ones down one slot; nothing changes when
     * no child has that byte.
     *
     * The C never clears the slot vacated at `next_used`, so it keeps the
     * handle of the old last child. Its `add_next` fills the first slot that
     * is NULL or holds a greater byte, so a later child greater than all
     * the others lands after that stale slot, outside `next_used`, where
     * `get_next` and `sel_hlf` never look, while the stale handle is counted
     * twice (or dangles, when it was the child removed). The contract states
     * the evident intent: the vacated slot is empty again.
     */
    method RmvNext(p: Ref, c: Ref)
      requires p in nodes && c in nodes && AllIn(nodes, nodes[p].next)
      modifies this
      ensures nodes == old(nodes)[p := WithoutChild(old(nodes), p, c)]
      ensures links == old(links) && layers == old(layers) && nextRef == old(nextRef)
      ensures chains == old(chains) && paths == old(paths) && at == old(at)
    {
      var n := nodes[p];
      var dif := nodes[c].dif;
      var i := 0;
      while i < |n.next| && nodes[n.next[i]].dif != dif
        invariant 0 <= i <= |n.next|
        invariant forall j :: 0 <= j < i ==> nodes[n.next[j]].dif != dif
      {
        i := i + 1;
      }
      assert i == FirstWithDif(nodes, n.next, dif);
      if i < |n.next| {
        nodes := nodes[p := n.(next := n.next[..i] + n.next[i + 1..])];
      }
    }

    /**
     * `dbs_christree_get_layer(layer, dif)`: the first node, from the head of
     * the chain of `layer`, whose byte is `dif`; None when no node of that
     * layer has it. The C does not check `layer`; the model asks for a layer
     * that exists.
     */
    method GetLayer(d: int, dif: Byte) returns (r: Option<Ref>)
      requires Valid() && 0 <= d < layerNum
      ensures r.Some? ==> r.value in nodes && nodes[r.value].layer == d && nodes[r.value].dif == dif
      ensures r.None? <==> forall x :: x in nodes && nodes[x].layer == d ==> nodes[x].dif != dif
      ensures AllIn(nodes, chains[d]) &&
              var i := FirstWithDif(nodes, chains[d], dif);
              r == if i < |chains[d]| then Some(chains[d][i]) else None
    {
      ghost var c := chains[d];
      assert ChainOk(nodes, links, c, d, layers[d]);
      var ptr := layers[d].node;
      ghost var j := 0;
      while ptr.Some? && nodes[ptr.value].dif != dif
        invariant 0 <= j <= |c|
        invariant ptr == (if j < |c| then Some(c[j]) else None)
        invariant forall t :: 0 <= t < j ==> nodes[c[t]].dif != dif
        decreases |c| - j
      {
        UnlinkAt(links, c, j);
        ptr := links[ptr.value].after;
        j := j + 1;
      }
      assert j == FirstWithDif(nodes, c, dif);
      r := ptr;
      if r.None? {
        assert NodeOk(nodes, root, layerNum, root);
        forall x | x in nodes && nodes[x].layer == d
          ensures nodes[x].dif != dif
        {
          LayerChained(nodes, links, chains, layers, root, layerNum, d, x);
        }
      }
    }

    /**
     * The walk of `link_layer` along the chain of layer `d`: it stops at the
     * first node whose byte is greater than `dif` in `char` order, remembering
     * the node before it.
     */
    method SeekLayer(d: int, dif: Byte) returns (last: Option<Ref>, ptr: Option<Ref>, ghost j: nat)
      requires 0 <= d < |layers| && |chains| == |layers|
      requires ChainOk(nodes, links, chains[d], d, layers[d])
      ensures j == InsertPos(nodes, chains[d], dif)
      ensures ptr == (if j < |chains[d]| then Some(chains[d][j]) else None)
      ensures last == (if j == 0 then None else Some(chains[d][j - 1]))
    {
      ghost var c := chains[d];
      ptr := layers[d].node;
      last := None;
      j := 0;
      while ptr.Some? && Signed(nodes[ptr.value].dif) <= Signed(dif)
        invariant 0 <= j <= |c|
        invariant ptr == (if j < |c| then Some(c[j]) else None)
        invariant last == (if j == 0 then None else Some(c[j - 1]))
        invariant forall t :: 0 <= t < j ==> Signed(nodes[c[t]].dif) <= Signed(dif)
        decreases |c| - j
      {
        MirroredAt(links, c, j);
        last := ptr;
        ptr := links[ptr.value].after;
        j := j + 1;
      }
      assert j == InsertPos(nodes, c, dif);
    }

    /** The pointer writes of `link_layer` once its walk has found the neighbours of `n`. */
    method Splice(d: int, n: Ref, last: Option<Ref>, ptr: Option<Ref>)
      requires n in links && 0 <= d < |layers|
      requires last.Some? ==> last.value in links
      requires ptr.Some? ==> ptr.value in links
      modifies this
      ensures nodes == old(nodes) && chains == old(chains) && nextRef == old(nextRef) && paths == old(paths) && at == old(at)
      ensures var l1 := old(links)[n := Link(last, ptr)];
              var l2 := if last.Some? then l1[last.value := old(links)[last.value].(after := Some(n))] else l1;
              links == if ptr.Some? then l2[ptr.value := old(links)[ptr.value].(before := Some(n))] else l2
      ensures layers == old(layers)[d := Layer(if last.None? then Some(n) else old(layers[d].node), old(layers[d].nodeNum) + 1)]
    {
      var l0 := links;
      links := links[n := Link(last, ptr)];
      if last.Some? {
        links := links[last.value := l0[last.value].(after := Some(n))];
      }
      if ptr.Some? {
        links := links[ptr.value := l0[ptr.value].(before := Some(n))];
      }
      if last.None? {
        layers := layers[d := Layer(Some(n), layers[d].nodeNum + 1)];
      } else {
        layers := layers[d := layers[d].(nodeNum := layers[d].nodeNum + 1)];
      }
    }

    /**
     * `dbs_christree_link_layer(n)`: links `n` into the chain of its layer,
     * after every node whose byte is not greater in `char` order, moving the
     * head on a front insert and counting it. The C returns -1 only for NULL
     * arguments, which the model has none of, so this never fails.
     */
    method LinkLayer(n: Ref)
      requires n in nodes && n in links && links[n] == Link(None, None)
      requires 0 <= nodes[n].layer < |layers| && |chains| == |layers|
      requires ChainOk(nodes, links, chains[nodes[n].layer], nodes[n].layer, layers[nodes[n].layer])
      requires n !in chains[nodes[n].layer]
      modifies this
      ensures nodes == old(nodes) && nextRef == old(nextRef) && paths == old(paths) && at == old(at)
      ensures var d := nodes[n].layer;
              var c := old(chains[d]);
              var i := InsertPos(nodes, c, nodes[n].dif);
              && LinksFor(old(links), c)
              && links == LinkedIn(old(links), c, i, n)
              && chains == old(chains)[d := Insert(c, i, n)]
              && layers == old(layers)[d := Layer(if i == 0 then Some(n) else old(layers[d].node), old(layers[d].nodeNum) + 1)]
              && ChainOk(nodes, links, chains[d], d, layers[d])
    {
      var d := nodes[n].layer;
      ghost var c := chains[d];
      ghost var lay0 := layers[d];
      var l0 := links;
      assert LinksFor(l0, c);
      var last, ptr;
      ghost var j;
      last, ptr, j := SeekLayer(d, nodes[n].dif);
      Splice(d, n, last, ptr);
      chains := chains[d := Insert(c, j, n)];
      ChainInserted(nodes, l0, c, d, lay0, n, links, chains[d], layers[d]);
    }

    /** The walk of `unlink_layer` along the chain of layer `d`, looking for `n`. */
    method SeekNode(d: int, n: Ref) returns (found: bool, ghost k: nat)
      requires 0 <= d < |layers| && |chains| == |layers|
      requires ChainOk(nodes, links, chains[d], d, layers[d])
      ensures k == IndexOf(chains[d], n)
      ensures found <==> n in chains[d]
    {
      ghost var c := chains[d];
      var ptr := layers[d].node;
      k := 0;
      while ptr.Some? && ptr.value != n
        invariant 0 <= k <= |c|
        invariant ptr == (if k < |c| then Some(c[k]) else None)
        invariant forall t :: 0 <= t < k ==> c[t] != n
        decreases |c| - k
      {
        UnlinkAt(links, c, k);
        ptr := links[ptr.value].after;
        k := k + 1;
      }
      assert k == IndexOf(c, n);
      found := ptr.Some?;
    }

    /** The pointer writes of `unlink_layer`: the neighbours of the node taken out are joined. */
    method Unhook(d: int, before: Option<Ref>, after: Option<Ref>)
      requires 0 <= d < |layers|
      requires before.Some? ==> before.value in links
      requires after.Some? ==> after.value in links
      modifies this
      ensures nodes == old(nodes) && chains == old(chains) && nextRef == old(nextRef) && paths == old(paths) && at == old(at)
      ensures var l1 := if before.Some? then old(links)[before.value := old(links)[before.value].(after := after)] else old(links);
              links == if after.Some? then l1[after.value := old(links)[after.value].(before := before)] else l1
      ensures layers == old(layers)[d := Layer(if before.None? then after else old(layers[d].node), old(layers[d].nodeNum) - 1)]
    {
      var l0 := links;
      if before.Some? {
        links := links[before.value := l0[before.value].(after := after)];
      }
      if after.Some? {
        links := links[after.value := l0[after.value].(before := before)];
      }
      if before.None? {
        layers := layers[d := Layer(after, layers[d].nodeNum - 1)];
      } else {
        layers := layers[d := layers[d].(nodeNum := layers[d].nodeNum - 1)];
      }
    }

    /**
     * `dbs_christree_unlink_layer(n)`: takes `n` out of the chain of its layer,
     * joining its two neighbours, moving the head on when `n` was the head and
     * counting it out; nothing changes when `n` is not on the chain.
     *
     * The C compares bytes instead of nodes, so a node of another branch with
     * the same byte can be taken out in its place; it never moves to the next
     * node, so it loops forever unless the head matches; and it writes through
     * the `after` of the tail, which is NULL. The model walks the chain, takes
     * out exactly `n`, and leaves the tail's missing successor alone.
     */
    method UnlinkLayer(n: Ref)
      requires n in nodes && 0 <= nodes[n].layer < |layers| && |chains| == |layers|
      requires ChainOk(nodes, links, chains[nodes[n].layer], nodes[n].layer, layers[nodes[n].layer])
      modifies this
      ensures nodes == old(nodes) && nextRef == old(nextRef) && paths == old(paths) && at == old(at)
      ensures var d := nodes[n].layer;
              var c := old(chains[d]);
              var k := IndexOf(c, n);
              && LinksFor(old(links), c)
              && (k == |c| ==> links == old(links) && chains == old(chains) && layers == old(layers))
              && (k < |c| ==>
                    && links == UnlinkedFrom(old(links), c, k)
                    && chains == old(chains)[d := Remove(c, k)]
                    && layers == old(layers)[d := Layer(if k == 0 then old(links)[n].after else old(layers[d].node),
                                                        old(layers[d].nodeNum) - 1)]
                    && ChainOk(nodes, links, chains[d], d, layers[d]))
    {
      var d := nodes[n].layer;
      ghost var c := chains[d];
      var l0 := links;
      var found;
      ghost var k;
      found, k := SeekNode(d, n);
      if !found {
        return;
      }
      ghost var lay0 := layers[d];
      UnlinkAt(l0, c, k);
      Unhook(d, l0[n].before, l0[n].after);
      chains := chains[d := Remove(c, k)];
      ChainRemoved(nodes, l0, c, d, lay0, k, links, chains[d], layers[d]);
    }

    /**
     * `dbs_christree_link_node(n)`: registers `n` with its parent
     * (`add_next`) and then with its layer (`link_layer`). When `add_next`
     * fails, -1 comes back and nothing changes. The C undoes the parent
     * registration when `link_layer` fails, which cannot happen here.
     */
    method LinkNode(n: Ref, growOk: bool) returns (rc: int)
      requires n in nodes && n in links && links[n] == Link(None, None)
      requires nodes[n].prev.Some? && nodes[n].prev.value in nodes && nodes[n].prev.value != n
      requires AllIn(nodes, nodes[nodes[n].prev.value].next)
      requires 0 <= nodes[n].layer < |layers| && |chains| == |layers|
      requires ChainOk(nodes, links, chains[nodes[n].layer], nodes[n].layer, layers[nodes[n].layer])
      requires n !in chains[nodes[n].layer]
      modifies this
      ensures var p := old(nodes[n].prev.value);
              var a := old(nodes[p]);
              if |a.next| + 1 >= a.nextAlloc && !growOk then rc == -1 && unchanged(this)
              else
                && rc == 0
                && nodes == old(nodes)[p := WithChild(old(nodes), p, n)]
                && var d := nodes[n].layer;
                   var c := old(chains[d]);
                   var i := InsertPos(nodes, c, nodes[n].dif);
                   && LinksFor(old(links), c)
                   && links == LinkedIn(old(links), c, i, n)
                   && chains == old(chains)[d := Insert(c, i, n)]
                   && layers == old(layers)[d := Layer(if i == 0 then Some(n) else old(layers[d].node), old(layers[d].nodeNum) + 1)]
      ensures nextRef == old(nextRef) && paths == old(paths) && at == old(at)
    {
      var p := nodes[n].prev.value;
      ghost var h0 := nodes;
      rc := AddNext(p, n, growOk);
      if rc < 0 {
        return;
      }
      var d := nodes[n].layer;
      ChainFrame(h0, links, chains[d], d, layers[d], nodes, links);
      LinkLayer(n);
    }

    /**
     * `dbs_christree_unlink_node(n)`: takes `n` out of its layer
     * (`unlink_layer`) and then out of its parent (`rmv_next`).
     */
    method UnlinkNode(n: Ref)
      requires n in nodes && nodes[n].prev.Some? && nodes[n].prev.value in nodes
      requires AllIn(nodes, nodes[nodes[n].prev.value].next)
      requires 0 <= nodes[n].layer < |layers| && |chains| == |layers|
      requires ChainOk(nodes, links, chains[nodes[n].layer], nodes[n].layer, layers[nodes[n].layer])
      modifies this
      ensures var p := old(nodes[n].prev.value);
              var d := old(nodes[n].layer);
              var c := old(chains[d]);
              var k := IndexOf(c, n);
              && nodes == old(nodes)[p := WithoutChild(old(nodes), p, n)]
              && LinksFor(old(links), c)
              && (k == |c| ==> links == old(links) && chains == old(chains) && layers == old(layers))
              && (k < |c| ==>
                    && links == UnlinkedFrom(old(links), c, k)
                    && chains == old(chains)[d := Remove(c, k)]
                    && layers == old(layers)[d := Layer(if k == 0 then old(links)[n].after else old(layers[d].node),
                                                        old(layers[d].nodeNum) - 1)])
      ensures nextRef == old(nextRef) && paths == old(paths) && at == old(at)
    {
      UnlinkLayer(n);
      RmvNext(nodes[n].prev.value, n);
    }

    /** The end of a creating round of `add`: the new node stands for the prefix of `p` extended by `b`. */
    method Adopt(p: Ref, n: Ref, b: Byte, ghost s0: Shape<D>, ghost d: int, ghost i: nat)
      requires AttachReady(s0, p) && n == s0.nextRef && nextRef == n + 1 && d == s0.h[p].layer + 1
      requires nodes == Grafted(s0.h, p, n, b) && AllIn(nodes, s0.chains[d]) && i == InsertPos(nodes, s0.chains[d], b)
      requires links == LinkedIn(s0.links[n := Link(None, None)], s0.chains[d], i, n)
      requires chains == s0.chains[d := Insert(s0.chains[d], i, n)]
      requires layers == s0.layers[d := Layer(if i == 0 then Some(n) else s0.layers[d].node, s0.layers[d].nodeNum + 1)]
      requires paths == s0.paths && at == s0.at
      modifies this
      ensures State() == Attached(s0, p, b)
    {
      var key := paths[p] + [b];
      paths := paths[n := key];
      at := at[key := n];
      AttachedParts(s0, p, b, nodes, links, chains, layers, paths, at, i);
    }

    /**
     * One creating round of `dbs_christree_add`: a new node under `p` for
     * byte `b` (`new`) is registered with its parent and its layer
     * (`link_node`). When `new` fails nothing changes; when `link_node` fails
     * the node is freed again (`del`) and only its handle is used up.
     */
    method Graft(p: Ref, b: Byte, newOk: bool, growOk: bool) returns (m: Option<Ref>)
      requires AttachReady(State(), p) && nextRef !in nodes && nextRef !in links
      requires ChainOk(nodes, links, chains[nodes[p].layer + 1], nodes[p].layer + 1, layers[nodes[p].layer + 1])
      modifies this
      ensures m.Some? <==> newOk && (|old(nodes[p].next)| + 1 < old(nodes[p].nextAlloc) || growOk)
      ensures m.Some? ==> State() == Attached(old(State()), p, b) && m.value == old(nextRef)
      ensures m.None? ==> && nodes == old(nodes) && links == old(links) && chains == old(chains)
                          && layers == old(layers) && paths == old(paths) && at == old(at)
                          && old(nextRef) <= nextRef
    {
      ghost var s0 := State();
      var d := nodes[p].layer + 1;
      assert d == s0.h[p].layer + 1;
      ChainLayer(nodes, links, chains[d], d, layers[d]);
      var r := New(p, d, b, newOk);
      if r.None? {
        return None;
      }
      ChainFrame(s0.h, s0.links, chains[d], d, layers[d], nodes, links);
      m := Hang(p, r.value, b, growOk, s0, d);
    }

    /** `link_node` for a node `new` has just made, and `del` when that fails. */
    method Hang(p: Ref, n: Ref, b: Byte, growOk: bool, ghost s0: Shape<D>, ghost d: int) returns (m: Option<Ref>)
      requires AttachReady(s0, p) && n == s0.nextRef && n !in s0.h && n !in s0.links && d == s0.h[p].layer + 1
      requires nodes == s0.h[n := Blank(p, d, b)] && links == s0.links[n := Link(None, None)]
      requires chains == s0.chains && layers == s0.layers && paths == s0.paths && at == s0.at && nextRef == n + 1
      requires ChainOk(nodes, links, chains[d], d, layers[d]) && n !in chains[d]
      modifies this
      ensures m.Some? <==> |s0.h[p].next| + 1 < s0.h[p].nextAlloc || growOk
      ensures m.Some? ==> State() == Attached(s0, p, b) && m.value == n
      ensures m.None? ==> && nodes == s0.h && links == s0.links && chains == s0.chains
                          && layers == s0.layers && paths == s0.paths && at == s0.at
                          && s0.nextRef <= nextRef
    {
      ghost var h1 := nodes;
      var rc := LinkNode(n, growOk);
      if rc < 0 {
        AddDrop(s0.h, n, nodes[n]);
        AddDrop(s0.links, n, links[n]);
        Del(n);
        return None;
      }
      assert nodes == Grafted(s0.h, p, n, b) by {
        assert h1 == s0.h[n := Blank(p, s0.h[p].layer + 1, b)];
        assert nodes == h1[p := WithChild(h1, p, n)];
      }
      assert nodes[n].layer == d && nodes[n].dif == b;
      assert AllIn(nodes, s0.chains[d]);
      ghost var i := InsertPos(nodes, s0.chains[d], b);
      Adopt(p, n, b, s0, d, i);
      m := Some(n);
    }

    /**
     * A creating round of `add` on a valid tree, for a prefix it does not
     * hold yet: the tree stays valid and stands for the same map.
     */
    method Extend(p: Ref, b: Byte, newOk: bool, growOk: bool) returns (m: Option<Ref>)
      requires Valid() && p in nodes && nodes[p].layer + 1 < layerNum && paths[p] + [b] !in at
      modifies this
      ensures Valid() && Contents() == old(Contents())
      ensures m.Some? <==> newOk && (|old(nodes[p].next)| + 1 < old(nodes[p].nextAlloc) || growOk)
      ensures m.Some? ==> AttachReady(old(State()), p) && State() == Attached(old(State()), p, b) && m.value == old(nextRef)
      ensures m.Some? ==> && m.value !in old(nodes) && nodes.Keys == old(nodes).Keys + {m.value}
                          && paths == old(paths)[m.value := old(paths[p]) + [b]]
                          && m.value in nodes[p].next
                          && (forall x :: x in old(nodes) && x != p ==> nodes[x] == old(nodes[x]))
      ensures m.None? ==> && nodes == old(nodes) && links == old(links) && chains == old(chains)
                          && layers == old(layers) && paths == old(paths) && at == old(at)
    {
      ghost var s0 := State();
      AttachPre(s0, root, layerNum, p, b);
      var d := nodes[p].layer + 1;
      assert ChainOk(nodes, links, chains[d], d, layers[d]);
      m := Graft(p, b, newOk, growOk);
      if m.Some? {
        GraftedParent(s0.h, p, s0.nextRef, b);
        AttachOk(s0, root, layerNum, p, b);
        AttachKeeps(s0, root, layerNum, p, b);
      } else {
        Later(s0, root, layerNum, nextRef);
        assert State() == s0.(nextRef := nextRef);
      }
    }

    /**
     * One round of the loop of `dbs_christree_add` at node `n`: the child for
     * byte `b` (`get_next`), made when there is none. None comes back only
     * when an allocation fails.
     */
    method Step(n: Ref, b: Byte, newOk: bool, growOk: bool) returns (c: Option<Ref>)
      requires Valid() && n in nodes && nodes[n].layer + 1 < layerNum
      modifies this
      ensures Valid() && Contents() == old(Contents())
      ensures c.Some? ==> c.value in nodes && paths[c.value] == old(paths[n]) + [b]
      ensures c.Some? ==> nodes[c.value].layer == old(nodes[n].layer) + 1
      ensures c.None? ==> !newOk || !growOk
      ensures old(paths[n]) + [b] in old(at) ==> c.Some? && unchanged(this)
      ensures old(nodes).Keys <= nodes.Keys && forall r :: r in old(nodes) ==> paths[r] == old(paths[r])
      ensures forall r :: r in nodes && r !in old(nodes) ==> paths[r] == old(paths[n]) + [b]
      ensures c.Some? && PrunedBut(old(nodes), root, n) ==> PrunedBut(nodes, root, c.value)
    {
      assert NodeOk(nodes, root, layerNum, n);
      ChildLookup(nodes, root, layerNum, paths, at, n, b);
      c := GetNext(nodes, n, b);
      if c.Some? {
        assert PathOk(nodes, root, paths, at, n) && PathOk(nodes, root, paths, at, c.value);
        if PrunedBut(nodes, root, n) {
          PrunedDown(nodes, root, n, c.value);
        }
        return;
      }
      ghost var h0, p0 := nodes, paths;
      c := Extend(n, b, newOk, growOk);
      if c.Some? {
        PathsGrow(h0, nodes, p0, paths, c.value, p0[n] + [b]);
        if PrunedBut(h0, root, n) {
          PrunedGrow(h0, nodes, root, n, c.value);
        }
      }
    }

    /**
     * The loop of `dbs_christree_add`: from the root, one `get_next` per
     * byte of `k`, making each missing node with `new` and `link_node`.
     * None comes back when an allocation fails; the nodes made before the
     * failure stay, each on a prefix of `k`.
     */
    method Walk(k: seq<Byte>, fault: Fault) returns (n: Option<Ref>)
      requires Valid() && |k| == layerNum
      modifies this
      ensures Valid() && Contents() == old(Contents())
      ensures n.Some? ==> n.value in nodes && paths[n.value] == k
      ensures fault == NoFault ==> n.Some?
      ensures k in old(at) ==> n.Some? && unchanged(this)
      ensures old(nodes).Keys <= nodes.Keys
      ensures forall r :: r in nodes && r !in old(nodes) ==> paths[r] <= k
      ensures n.Some? && old(Pruned(nodes, root)) ==> PrunedBut(nodes, root, n.value)
    {
      ghost var keys0, had, pruned, stored := nodes.Keys, k in at, Pruned(nodes, root), Contents();
      var cur := root;
      var i := 0;
      assert PathOk(nodes, root, paths, at, root) && NodeOk(nodes, root, layerNum, root);
      while i < layerNum
        invariant 0 <= i <= layerNum
        invariant Valid() && Contents() == stored
        invariant cur in nodes && paths[cur] == k[..i] && nodes[cur].layer == i - 1
        invariant keys0 <= nodes.Keys
        invariant forall r :: r in nodes && r !in keys0 ==> paths[r] <= k
        invariant had ==> unchanged(this)
        invariant pruned ==> PrunedBut(nodes, root, cur)
      {
        SliceNext(k, i);
        if had {
          PrefixClosed(nodes, root, layerNum, paths, at, k, i + 1);
        }
        ghost var h0, p0 := nodes, paths;
        var c := Step(cur, k[i], fault != NodeFault(i), fault != GrowFault(i));
        NewOnPrefix(keys0, h0.Keys, nodes.Keys, p0, paths, k, k[..i + 1]);
        if c.None? {
          return None;
        }
        cur := c.value;
        i := i + 1;
      }
      assert k[..i] == k;
      n := Some(cur);
    }

    /** The last line of `dbs_christree_add`: `data` hung on the node of the key. */
    method Store(n: Ref, v: D)
      requires Valid() && n in nodes && nodes[n].layer == layerNum - 1
      modifies this
      ensures Valid() && Contents() == old(Contents())[old(paths[n]) := v]
      ensures nodes == old(nodes)[n := old(nodes[n]).(data := Some(v))]
      ensures links == old(links) && chains == old(chains) && layers == old(layers)
      ensures paths == old(paths) && at == old(at) && nextRef == old(nextRef)
      ensures n != root && PrunedBut(old(nodes), root, n) ==> Pruned(nodes, root)
    {
      ghost var s1 := State();
      SetDataOk(s1, root, layerNum, n, v);
      SetDataKeeps(s1, root, layerNum, n, v);
      nodes := nodes[n := nodes[n].(data := Some(v))];
      assert State() == WithData(s1, n, v);
    }

    /**
     * `dbs_christree_add(str, data)`: walks the `layer_num` bytes of the key
     * down from the root, making every missing node on the way, and hangs
     * `data` on the last one. -1 comes back for a NULL key or payload, and
     * when an allocation fails; the nodes made before the failure stay.
     * The C reads `layer_num` bytes of `str`; the key has that length here.
     */
    method Add(key: Option<seq<Byte>>, data: Option<D>, fault: Fault) returns (rc: int)
      requires Valid()
      requires key.Some? ==> |key.value| == layerNum
      modifies this
      ensures Valid()
      ensures rc == 0 || rc == -1
      ensures key.None? || data.None? ==> rc == -1 && unchanged(this)
      ensures rc == 0 ==> key.Some? && data.Some? && Contents() == old(Contents())[key.value := data.value]
      ensures rc == -1 ==> Contents() == old(Contents())
      ensures key.Some? && data.Some? && fault == NoFault ==> rc == 0
      ensures key.Some? && data.Some? && key.value in old(at) ==> rc == 0 && nodes.Keys == old(nodes).Keys
      ensures key.Some? && data.Some? && key.value in old(at) ==>
                && nodes == old(nodes)[old(at)[key.value] := old(nodes[at[key.value]]).(data := data)]
                && links == old(links) && chains == old(chains) && layers == old(layers)
                && paths == old(paths) && at == old(at)
      ensures old(nodes).Keys <= nodes.Keys
      ensures key.Some? ==> forall r :: r in nodes && r !in old(nodes) ==> paths[r] <= key.value
      ensures rc == 0 && old(Pruned(nodes, root)) ==> Pruned(nodes, root)
    {
      if key.None? || data.None? {
        return -1;
      }
      var n := Walk(key.value, fault);
      if n.None? {
        return -1;
      }
      assert PathOk(nodes, root, paths, at, n.value) && NodeOk(nodes, root, layerNum, n.value);
      Store(n.value, data.value);
      rc := 0;
    }

    /**
     * The byte-by-byte descent shared by the first loop of
     * `dbs_christree_rmv` and the mask loop of `dbs_christree_sel`: one
     * `get_next` per byte of `bs`, stopping at the first byte with no child.
     */
    method Follow(n: Ref, bs: seq<Byte>) returns (r: Option<Ref>)
      requires ChildrenIn(nodes) && n in nodes
      ensures r == Descend(nodes, n, bs)
    {
      var cur := n;
      var i := 0;
      while i < |bs|
        invariant 0 <= i <= |bs| && cur in nodes
        invariant Descend(nodes, cur, bs[i..]) == Descend(nodes, n, bs)
      {
        assert bs[i..][1..] == bs[i + 1..];
        var c := GetNext(nodes, cur, bs[i]);
        if c.None? {
          return None;
        }
        cur := c.value;
        i := i + 1;
      }
      assert bs[i..] == [];
      r := Some(cur);
    }

    /** `unlink_node(n)` and `del(n)` of one pruning round, and the prefix of `n` dropped from the ghost maps. */
    method Snip(n: Ref, ghost s0: Shape<D>, ghost d: int, ghost k: nat)
      requires State() == s0 && DetachReady(s0, n) && d == s0.h[n].layer && k == IndexOf(s0.chains[d], n)
      requires ChainOk(nodes, links, chains[d], d, layers[d])
      modifies this
      ensures State() == Detached(s0, n)
    {
      DetachFields(s0, n);
      UnlinkNode(n);
      Free(n, s0, d, k);
    }

    /** `del(n)` after `unlink_node(n)`, and the prefix of `n` dropped from the ghost maps. */
    method Free(n: Ref, ghost s0: Shape<D>, ghost d: int, ghost k: nat)
      requires DetachReady(s0, n) && d == s0.h[n].layer && k == IndexOf(s0.chains[d], n) && k < |s0.chains[d]|
      requires nodes == s0.h[s0.h[n].prev.value := WithoutChild(s0.h, s0.h[n].prev.value, n)]
      requires links == UnlinkedFrom(s0.links, s0.chains[d], k)
      requires chains == s0.chains[d := Remove(s0.chains[d], k)]
      requires layers == s0.layers[d := Layer(if k == 0 then s0.links[n].after else s0.layers[d].node,
                                              s0.layers[d].nodeNum - 1)]
      requires paths == s0.paths && at == s0.at && nextRef == s0.nextRef
      modifies this
      ensures State() == Detached(s0, n)
    {
      Del(n);
      paths := paths - {n};
      at := at - {s0.paths[n]};
      DetachedParts(s0, n, nodes, links, chains, layers, paths, at, d, k);
    }

    /**
     * One round of the pruning loop of `dbs_christree_rmv` on a childless
     * node other than the root: the tree stays valid, loses exactly `n`,
     * and the abstract view loses the prefix of `n`. The parent comes back.
     */
    method Drop(n: Ref) returns (p: Ref)
      requires Valid() && n in nodes && n != root && nodes[n].next == []
      modifies this
      ensures Valid() && Contents() == old(Contents()) - {old(paths[n])}
      ensures old(nodes[n].prev) == Some(p) && p in nodes
      ensures nodes.Keys == old(nodes).Keys - {n} && paths == old(paths) - {n}
      ensures forall x :: x in nodes && x != p ==> nodes[x] == old(nodes[x])
    {
      ghost var s0 := State();
      DetachPre(s0, root, layerNum, n);
      ghost var d := nodes[n].layer;
      assert ChainOk(nodes, links, chains[d], d, layers[d]);
      p := nodes[n].prev.value;
      Snip(n, s0, d, IndexOf(chains[d], n));
      CutParent(s0.h, root, layerNum, n);
      DetachOk(s0, root, layerNum, n);
      DetachKeeps(s0, root, layerNum, n);
    }

    /**
     * `dbs_christree_rmv(str)`: walks the `layer_num` bytes of the key down
     * from the root and does nothing when a byte has no child; otherwise it
     * frees the key's node and then, bottom-up, every ancestor left without
     * children, stopping below the root.
     * The C prunes while a node has at most one child after the cut
     * (`next_used > 1` stops it) and runs `layer_num + 1` rounds, onto the
     * root; here a round stops at the first node that still has a child, or
     * at the root, so no other key is lost.
     */
    method Rmv(key: Option<seq<Byte>>)
      requires Valid()
      requires key.Some? ==> |key.value| == layerNum
      modifies this
      ensures Valid()
      ensures key.None? ==> unchanged(this)
      ensures key.Some? ==> Contents() == old(Contents()) - {key.value}
      ensures key.Some? && key.value !in old(at) ==> unchanged(this)
      ensures nodes.Keys <= old(nodes).Keys
      ensures key.Some? && key.value in old(at) ==> old(at)[key.value] !in nodes
      ensures key.Some? ==> forall r :: r in old(nodes) && r !in nodes ==> old(paths[r]) <= key.value
      ensures key.Some? && key.value in old(at) ==>
                forall r :: r in nodes && paths[r] <= key.value ==> r == root || nodes[r].next != []
      ensures old(Pruned(nodes, root)) ==> Pruned(nodes, root)
    {
      if key.None? {
        return;
      }
      var k := key.value;
      var f := Follow(root, k);
      assert PathOk(nodes, root, paths, at, root);
      DescendFinds(nodes, root, layerNum, paths, at, root, k);
      assert [] + k == k;
      if f.None? {
        return;
      }
      var cur := f.value;
      assert PathOk(nodes, root, paths, at, cur) && NodeOk(nodes, root, layerNum, cur);
      Childless(nodes, root, layerNum, cur);
      UpOne(paths[nodes[cur].prev.value], nodes[cur].dif, k);
      ghost var h0, p0, a0 := nodes, paths, at;
      assert PathsOk(h0, root, p0, a0);
      var p := Drop(cur);
      StillBelow(h0, root, p0, a0, nodes.Keys, paths, cur, p, k);
      if old(Pruned(nodes, root)) {
        PrunedShrink(h0, nodes, root, cur, p);
      }
      assert paths[p] == p0[p];
      ghost var h1, p1 := nodes, paths;
      PruneUp(p, k);
      Gone(h0.Keys, h1.Keys, nodes.Keys, p0, p1, cur, k);
    }

    /**
     * The rest of the pruning loop of `dbs_christree_rmv`, from `n` upwards:
     * each childless node below the root is freed in turn. `n` is on a
     * strict prefix of key `k`, so it carries no payload, and neither do
     * its ancestors.
     */
    method PruneUp(n: Ref, ghost k: seq<Byte>)
      requires Valid() && n in nodes && paths[n] <= k && |paths[n]| < |k| == layerNum
      requires forall r :: r in nodes && paths[r] <= k ==> paths[r] <= paths[n]
      modifies this
      ensures Valid() && Contents() == old(Contents())
      ensures nodes.Keys <= old(nodes).Keys
      ensures forall r :: r in old(nodes) && r !in nodes ==> old(paths[r]) <= k
      ensures forall r :: r in nodes && paths[r] <= k ==> r == root || nodes[r].next != []
      ensures PrunedBut(old(nodes), root, n) ==> Pruned(nodes, root)
    {
      var cur := n;
      while cur != root && nodes[cur].next == []
        invariant Valid() && cur in nodes && paths[cur] <= k && |paths[cur]| < |k|
        invariant Contents() == old(Contents())
        invariant nodes.Keys <= old(nodes).Keys
        invariant forall r :: r in nodes ==> paths[r] == old(paths[r])
        invariant forall r :: r in old(nodes) && r !in nodes ==> old(paths[r]) <= k
        invariant forall r :: r in nodes && paths[r] <= k ==> paths[r] <= paths[cur]
        invariant PrunedBut(old(nodes), root, n) ==> PrunedBut(nodes, root, cur)
        decreases |nodes.Keys|
      {
        ghost var h0 := nodes;
        var p := PruneStep(cur, k);
        Shrunk(old(nodes).Keys, old(paths), h0.Keys, nodes.Keys, cur, k);
        if PrunedBut(old(nodes), root, n) {
          PrunedShrink(h0, nodes, root, cur, p);
        }
        cur := p;
      }
      StopsBelow(nodes, root, layerNum, paths, at, cur, k);
    }

    /**
     * One round of the pruning loop of `dbs_christree_rmv`: `cur`, a bare
     * node on a strict prefix of key `k` and the deepest node left on it, is
     * freed, and its parent comes back as the new deepest node on `k`.
     */
    method PruneStep(cur: Ref, ghost k: seq<Byte>) returns (p: Ref)
      requires Valid() && cur in nodes && cur != root && nodes[cur].next == []
      requires paths[cur] <= k && |paths[cur]| < |k| == layerNum
      requires forall r :: r in nodes && paths[r] <= k ==> paths[r] <= paths[cur]
      modifies this
      ensures Valid() && Contents() == old(Contents())
      ensures old(nodes[cur].prev) == Some(p) && p in nodes && paths[p] <= k && |paths[p]| < |k|
      ensures nodes.Keys == old(nodes).Keys - {cur} && paths == old(paths) - {cur}
      ensures forall x :: x in nodes && x != p ==> nodes[x] == old(nodes[x])
      ensures forall r :: r in nodes && paths[r] <= k ==> paths[r] <= paths[p]
    {
      assert PathOk(nodes, root, paths, at, cur) && NodeOk(nodes, root, layerNum, cur);
      NoPayload(nodes, at, paths[cur]);
      UpOne(paths[nodes[cur].prev.value], nodes[cur].dif, k);
      ghost var h0, p0, a0 := nodes, paths, at;
      assert PathsOk(h0, root, p0, a0);
      p := Drop(cur);
      StillBelow(h0, root, p0, a0, nodes.Keys, paths, cur, p, k);
      assert paths[p] == p0[p];
    }

    /**
     * `dbs_christree_sel_hlf(nc, pass)`: writes the payloads of the subtree
     * of `n` in pre-order (the node, then its children in array order) into
     * `out`, from slot `c0`, and stops once slot `lim - 1` is written; the
     * new count comes back.
     * The C tests the limit once per node, before its loop over the
     * children, so after a child fills the buffer a later child writes past
     * `lim`; here the limit is tested before every child.
     */
    method SelHlf(n: Ref, out: array<D>, c0: nat, lim: nat) returns (c: nat)
      requires VerticalOk(nodes, root, layerNum) && n in nodes && c0 < lim <= out.Length
      modifies out
      ensures c0 <= c <= lim
      ensures out[c0..c] == Truncate(Collect(nodes, root, layerNum, n), lim - c0)
      ensures out[..c0] == old(out[..c0]) && out[c..] == old(out[c..])
      decreases layerNum - nodes[n].layer, 2
    {
      var h := nodes;
      ghost var top, L := root, layerNum;
      CollectNode(h, top, L, n);
      var c1 := c0;
      if h[n].data.Some? {
        out[c1] := h[n].data.value;
        c1 := c1 + 1;
      }
      ghost var a := out[..];
      assert a[c0..c1] == Own(h, n) == Truncate(Own(h, n), lim - c0);
      c := SelKids(n, out, c1, lim);
      WrittenAfter(old(out[..]), a, out[..], c0, c1, c, Own(h, n),
                   CollectAll(h, top, L, h[n].next, h[n].layer + 1), lim - c0);
    }

    /**
     * The loop of `dbs_christree_sel_hlf` over the children of `n`, in
     * array order, while the buffer has room.
     */
    method SelKids(n: Ref, out: array<D>, c0: nat, lim: nat) returns (c: nat)
      requires VerticalOk(nodes, root, layerNum) && n in nodes && c0 <= lim <= out.Length
      modifies out
      ensures Layered(nodes, nodes[n].next, nodes[n].layer + 1) && nodes[n].layer + 1 <= layerNum
      ensures c0 <= c <= lim
      ensures out[c0..c] == Truncate(CollectAll(nodes, root, layerNum, nodes[n].next, nodes[n].layer + 1), lim - c0)
      ensures out[..c0] == old(out[..c0]) && out[c..] == old(out[c..])
      decreases layerNum - nodes[n].layer, 1
    {
      var h := nodes;
      ghost var top, L := root, layerNum;
      ghost var o := out[..];
      ChildLayers(h, top, L, n);
      var kids := h[n].next;
      ghost var d := h[n].layer + 1;
      c := c0;
      var i := 0;
      while i < |kids| && c < lim
        invariant 0 <= i <= |kids| && c0 <= c <= lim
        invariant out[c0..c] == Truncate(CollectAll(h, top, L, kids[..i], d), lim - c0)
        invariant out[..c0] == o[..c0] && out[c..] == o[c..]
      {
        CollectStep(h, top, L, kids, d, i);
        c := SelKid(kids[i], d, out, o, CollectAll(h, top, L, kids[..i], d), c0, c, lim);
        i := i + 1;
      }
      KidsDone(h, top, L, kids, d, i, out[c0..c], lim - c0);
    }

    /**
     * One round of the loop of `dbs_christree_sel_hlf`: the subtree of child
     * `x` of a node on layer `d - 1`, from slot `c`, after the buffer has
     * taken what came before it, `w`.
     */
    method SelKid(x: Ref, ghost d: int, out: array<D>, ghost o: seq<D>, ghost w: seq<D>, c0: nat, c: nat, lim: nat)
      returns (c': nat)
      requires VerticalOk(nodes, root, layerNum) && x in nodes && nodes[x].layer == d
      requires c0 <= c < lim <= out.Length && |o| == out.Length
      requires out[c0..c] == Truncate(w, lim - c0)
      requires out[..c0] == o[..c0] && out[c..] == o[c..]
      modifies out
      ensures c <= c' <= lim
      ensures out[c0..c'] == Truncate(w + Collect(nodes, root, layerNum, x), lim - c0)
      ensures out[..c0] == o[..c0] && out[c'..] == o[c'..]
      decreases layerNum - d + 1, 0
    {
      assert NodeOk(nodes, root, layerNum, x);
      ghost var a := out[..];
      c' := SelHlf(x, out, c, lim);
      WrittenAfter(o, a, out[..], c0, c, c', w, Collect(nodes, root, layerNum, x), lim - c0);
    }

    /**
     * The node `sel` collects from for `m`: the first node of layer `off`
     * with byte `data[0]` (`get_layer`), then one `get_next` for each further
     * byte of the mask.
     */
    ghost function Target(m: Mask): (t: Option<Ref>)
      reads this
      requires Valid() && 0 <= m.off < layerNum && 1 <= |m.data| && m.len <= |m.data|
      ensures t.Some? ==> t.value in nodes
    {
      var c := chains[m.off];
      assert ChainOk(nodes, links, c, m.off, layers[m.off]);
      var i := FirstWithDif(nodes, c, m.data[0]);
      if i < |c| then Descend(nodes, c[i], m.Tail()) else None
    }

    /**
     * The node `sel` collects from matches the mask: it sits `len - 1`
     * layers below layer `off` (on `off` itself for a one-byte mask) and
     * its key prefix carries the mask's bytes from position `off` on.
     */
    lemma TargetMatches(m: Mask)
      requires Valid() && 0 <= m.off < layerNum && 1 <= |m.data| && m.len <= |m.data|
      requires Target(m).Some?
      ensures var t := Target(m).value;
              && |paths[t]| == m.off + 1 + |m.Tail()|
              && paths[t][m.off] == m.data[0]
              && paths[t][m.off + 1..] == m.Tail()
    {
      var c := chains[m.off];
      assert ChainOk(nodes, links, c, m.off, layers[m.off]);
      var i := FirstWithDif(nodes, c, m.data[0]);
      var s := c[i];
      assert Chained(nodes, chains, root, layerNum, s) && NodeOk(nodes, root, layerNum, s);
      assert PathOk(nodes, root, paths, at, s);
      assert s != root by {
        assert NodeOk(nodes, root, layerNum, root);
      }
      var q := nodes[s].prev.value;
      assert PathOk(nodes, root, paths, at, q);
      DescendFinds(nodes, root, layerNum, paths, at, s, m.Tail());
      var t := at[paths[s] + m.Tail()];
      assert paths[t] == paths[s] + m.Tail();
    }

    /**
     * `dbs_christree_sel(mask, data, lim)`: -1 for a missing mask or a
     * `lim` below 1; 0 when no node of layer `off` has byte `data[0]` or a
     * later mask byte has no child; otherwise the payloads below the
     * matched node, in pre-order, at most `lim` of them, written to `out`
     * from slot 0, and their count.
     */
    method Sel(mask: Option<Mask>, out: array<D>, lim: int) returns (r: int)
      requires Valid() && lim <= out.Length
      requires mask.Some? ==> 0 <= mask.value.off < layerNum && 1 <= |mask.value.data| && mask.value.len <= |mask.value.data|
      modifies out
      ensures mask.None? || lim < 1 ==> r == -1 && out[..] == old(out[..])
      ensures mask.Some? && 1 <= lim ==> 0 <= r <= lim
      ensures mask.Some? && 1 <= lim && Target(mask.value).None? ==> r == 0 && out[..] == old(out[..])
      ensures mask.Some? && 1 <= lim && Target(mask.value).Some? ==>
                && out[..r] == Truncate(Collect(nodes, root, layerNum, Target(mask.value).value), lim)
                && out[r..] == old(out[r..])
      ensures mask.Some? && 1 <= lim && Target(mask.value).Some? ==>
                var pre := paths[Target(mask.value).value];
                && (forall x :: x in out[..r] ==> StoredUnder(nodes, at, pre, x))
                && (r < lim ==> forall x :: StoredUnder(nodes, at, pre, x) ==> x in out[..r])
    {
      if mask.None? || lim < 1 {
        return -1;
      }
      var m := mask.value;
      var s := GetLayer(m.off, m.data[0]);
      if s.None? {
        return 0;
      }
      var t := Follow(s.value, m.Tail());
      if t.None? {
        return 0;
      }
      r := SelHlf(t.value, out, 0, lim);
      CollectExact(nodes, root, layerNum, paths, at, t.value);
      assert out[..r] == out[0..r];
    }
  }
}

/**
 * The node records of the christree (src/christree.c, inc/christree.h) and
 * the pure facts about them: the child-array and layer-chain scans, the
 * sorted insert and remove positions, and the two linkage invariants.
 *
 * Nodes live in an arena: a `Heap` maps a node handle (`Ref`, standing for
 * a `struct dbs_christree_node *`) to the node's vertical fields, and a
 * parallel map holds each node's horizontal `before`/`after` links.
 */
module ChrisNode {
  import opened Wrappers

  /** A key byte as the caller passes it (`unsigned char`). */
  type Byte = b: int | 0 <= b < 256

  /** A node handle in the arena; `None` of an `Option<Ref>` is the C NULL. */
  type Ref = nat

  /** `DBS_CHRISTREE_NEXT_MIN`: the number of child slots a fresh node gets. */
  const NEXT_MIN: nat := 5

  /**
   * The order the C code compares `dif` bytes in. The field is a plain `char`,
   * signed on the ABIs the library is built for, so 0x80..0xFF read as
   * -128..-1 and sort before 0x00..0x7F.
   */
  function Signed(b: Byte): (s: int)
    ensures -128 <= s < 128
    ensures s % 256 == b
    ensures b < 128 <==> 0 <= s
  {
    if b < 128 then b else b - 256
  }

  /** Two bytes compare equal as `char` exactly when they are the same byte. */
  lemma SignedInjective(a: Byte, b: Byte)
    ensures Signed(a) == Signed(b) <==> a == b
  {
  }

  /**
   * The fields of `struct dbs_christree_node` other than `before`/`after`:
   * `next` holds the `next_used` children in slot order and `nextAlloc` is
   * `next_alloc`, the number of slots. The slots past `next_used` are not
   * modelled: the model treats them as empty, which `new` and the growth of
   * `add_next` make them, but `rmv_next` leaves a stale handle behind (see
   * `RmvNext`).
   */
  datatype Node<D> = Node(prev: Option<Ref>, next: seq<Ref>, nextAlloc: nat,
                          layer: int, dif: Byte, data: Option<D>)

  /** The horizontal links of one node. */
  datatype Link = Link(before: Option<Ref>, after: Option<Ref>)

  /** `struct dbs_christree_layer`: the head of a layer chain and its node count. */
  datatype Layer = Layer(node: Option<Ref>, nodeNum: int)

  type Heap<D> = map<Ref, Node<D>>

  ghost predicate AllIn<D>(h: Heap<D>, s: seq<Ref>)
  {
    forall i :: 0 <= i < |s| ==> s[i] in h
  }

  function Insert(s: seq<Ref>, i: nat, x: Ref): (r: seq<Ref>)
    requires i <= |s|
  {
    s[..i] + [x] + s[i..]
  }

  function Remove(s: seq<Ref>, i: nat): (r: seq<Ref>)
    requires i < |s|
  {
    s[..i] + s[i + 1..]
  }

  /**
   * The scan of `get_next`, `rmv_next` and `get_layer`: the index of the first
   * node of `s` whose byte is `dif`, or |s| when no node has it.
   */
  function FirstWithDif<D>(h: Heap<D>, s: seq<Ref>, dif: Byte): (i: nat)
    requires AllIn(h, s)
    ensures i <= |s|
    ensures forall j :: 0 <= j < i ==> h[s[j]].dif != dif
    ensures i < |s| ==> h[s[i]].dif == dif
    decreases |s|
  {
    if s == [] then 0
    else if h[s[0]].dif == dif then 0
    else 1 + FirstWithDif(h, s[1..], dif)
  }

  /**
   * The scan of `add_next` and `link_layer`: the index of the first node of
   * `s` whose byte is strictly greater than `dif` in signed order, or |s|.
   * A new node goes in at that index, after every node with an equal byte.
   */
  function InsertPos<D>(h: Heap<D>, s: seq<Ref>, dif: Byte): (i: nat)
    requires AllIn(h, s)
    ensures i <= |s|
    ensures forall j :: 0 <= j < i ==> Signed(h[s[j]].dif) <= Signed(dif)
    ensures i < |s| ==> Signed(h[s[i]].dif) > Signed(dif)
    decreases |s|
  {
    if s == [] then 0
    else if Signed(h[s[0]].dif) > Signed(dif) then 0
    else 1 + InsertPos(h, s[1..], dif)
  }

  /** `get_next`: the first used child of `n` whose byte is `dif`, or NULL. */
  function GetNext<D>(h: Heap<D>, n: Ref, dif: Byte): (r: Option<Ref>)
    requires n in h && AllIn(h, h[n].next)
    ensures r.Some? ==> r.value in h[n].next && h[r.value].dif == dif
    ensures r.None? ==> forall c :: c in h[n].next ==> h[c].dif != dif
  {
    var i := FirstWithDif(h, h[n].next, dif);
    if i < |h[n].next| then Some(h[n].next[i]) else None
  }

  /** Children: strictly ascending in signed byte order, so no byte repeats. */
  ghost predicate StrictlySorted<D>(h: Heap<D>, s: seq<Ref>)
    requires AllIn(h, s)
  {
    forall i, j :: 0 <= i < j < |s| ==> Signed(h[s[i]].dif) < Signed(h[s[j]].dif)
  }

  /** Layer chains: non-decreasing in signed byte order. */
  ghost predicate Sorted<D>(h: Heap<D>, s: seq<Ref>)
    requires AllIn(h, s)
  {
    forall i, j :: 0 <= i < j < |s| ==> Signed(h[s[i]].dif) <= Signed(h[s[j]].dif)
  }

  /** In a strictly sorted child array each entry is the first one with its byte. */
  lemma {:induction false} StrictlySortedFirst<D>(h: Heap<D>, s: seq<Ref>, i: nat)
    requires AllIn(h, s) && StrictlySorted(h, s) && i < |s|
    ensures FirstWithDif(h, s, h[s[i]].dif) == i
  {
  }

  /**
   * Inserting a child whose byte is absent at the `add_next` position keeps
   * the child array strictly sorted.
   */
  lemma {:induction false} InsertKeepsStrictlySorted<D>(h: Heap<D>, s: seq<Ref>, c: Ref)
    requires AllIn(h, s) && c in h && StrictlySorted(h, s)
    requires FirstWithDif(h, s, h[c].dif) == |s|
    ensures AllIn(h, Insert(s, InsertPos(h, s, h[c].dif), c))
    ensures StrictlySorted(h, Insert(s, InsertPos(h, s, h[c].dif), c))
  {
    var p := InsertPos(h, s, h[c].dif);
    var t := Insert(s, p, c);
    assert |t| == |s| + 1;
    assert forall j :: 0 <= j < p ==> t[j] == s[j];
    assert t[p] == c;
    assert forall j :: p < j < |t| ==> t[j] == s[j - 1];
    forall j | 0 <= j < |s|
      ensures Signed(h[s[j]].dif) != Signed(h[c].dif)
    {
      SignedInjective(h[s[j]].dif, h[c].dif);
    }
    forall i, j | 0 <= i < j < |t|
      ensures Signed(h[t[i]].dif) < Signed(h[t[j]].dif)
    {
      if j < p {
      } else if j == p {
      } else if i < p {
        assert Signed(h[s[i]].dif) <= Signed(h[c].dif) < Signed(h[s[p]].dif);
      } else if i == p {
        assert Signed(h[s[p]].dif) <= Signed(h[s[j - 1]].dif);
      } else {
      }
    }
  }

  /** Inserting at the `link_layer` position keeps a layer chain sorted. */
  lemma {:induction false} InsertKeepsSorted<D>(h: Heap<D>, s: seq<Ref>, c: Ref)
    requires AllIn(h, s) && c in h && Sorted(h, s)
    ensures AllIn(h, Insert(s, InsertPos(h, s, h[c].dif), c))
    ensures Sorted(h, Insert(s, InsertPos(h, s, h[c].dif), c))
  {
    var p := InsertPos(h, s, h[c].dif);
    var t := Insert(s, p, c);
    assert forall j :: 0 <= j < p ==> t[j] == s[j];
    assert t[p] == c;
    assert forall j :: p < j < |t| ==> t[j] == s[j - 1];
    forall i, j | 0 <= i < j < |t|
      ensures Signed(h[t[i]].dif) <= Signed(h[t[j]].dif)
    {
      if j < p {
      } else if j == p {
      } else if i < p {
        assert Signed(h[s[i]].dif) <= Signed(h[c].dif) < Signed(h[s[p]].dif);
      } else if i == p {
        assert Signed(h[s[p]].dif) <= Signed(h[s[j - 1]].dif);
      } else {
      }
    }
  }

  /** Removing one entry keeps a child array strictly sorted. */
  lemma {:induction false} RemoveKeepsStrictlySorted<D>(h: Heap<D>, s: seq<Ref>, k: nat)
    requires AllIn(h, s) && k < |s| && StrictlySorted(h, s)
    ensures AllIn(h, Remove(s, k)) && StrictlySorted(h, Remove(s, k))
  {
    var t := Remove(s, k);
    assert forall j :: 0 <= j < k ==> t[j] == s[j];
    assert forall j :: k <= j < |t| ==> t[j] == s[j + 1];
    forall i, j | 0 <= i < j < |t|
      ensures Signed(h[t[i]].dif) < Signed(h[t[j]].dif)
    {
      if j < k {
      } else if i < k {
        assert t[j] == s[j + 1];
      } else {
        assert t[i] == s[i + 1] && t[j] == s[j + 1];
      }
    }
  }

  /** Removing one entry keeps a layer chain sorted. */
  lemma {:induction false} RemoveKeepsSorted<D>(h: Heap<D>, s: seq<Ref>, k: nat)
    requires AllIn(h, s) && k < |s| && Sorted(h, s)
    ensures AllIn(h, Remove(s, k)) && Sorted(h, Remove(s, k))
  {
    var t := Remove(s, k);
    assert forall j :: 0 <= j < k ==> t[j] == s[j];
    assert forall j :: k <= j < |t| ==> t[j] == s[j + 1];
    forall i, j | 0 <= i < j < |t|
      ensures Signed(h[t[i]].dif) <= Signed(h[t[j]].dif)
    {
      if j < k {
      } else if i < k {
        assert t[j] == s[j + 1];
      } else {
        assert t[i] == s[i + 1] && t[j] == s[j + 1];
      }
    }
  }

  /**
   * `next_alloc` after the capacity check of `add_next`: once the used count
   * plus one reaches the slot count, the array grows to ⌊1.5·alloc⌋ slots
   * (the C `* 1.5` on an int, truncated on assignment).
   */
  function Grown(alloc: nat, used: nat): (a: nat)
    ensures alloc <= a
    ensures 2 <= alloc && used < alloc ==> used + 1 < a
  {
    if used + 1 >= alloc then alloc * 3 / 2 else alloc
  }

  /** Node `p` after `add_next(p, c)` has registered child `c`. */
  function WithChild<D>(h: Heap<D>, p: Ref, c: Ref): Node<D>
    requires p in h && c in h && AllIn(h, h[p].next)
  {
    var n := h[p];
    n.(next := Insert(n.next, InsertPos(h, n.next, h[c].dif), c),
       nextAlloc := Grown(n.nextAlloc, |n.next|))
  }

  /** Node `p` after `rmv_next(p, c)`: the first child with c's byte is gone, if any. */
  function WithoutChild<D>(h: Heap<D>, p: Ref, c: Ref): Node<D>
    requires p in h && c in h && AllIn(h, h[p].next)
  {
    var n := h[p];
    var i := FirstWithDif(h, n.next, h[c].dif);
    if i < |n.next| then n.(next := Remove(n.next, i)) else n
  }

  /** The position of `x` in `s`, or |s| when it is absent. */
  function IndexOf(s: seq<Ref>, x: Ref): (i: nat)
    ensures i <= |s|
    ensures i < |s| <==> x in s
    ensures i < |s| ==> s[i] == x
    ensures forall j :: 0 <= j < i ==> s[j] != x
    decreases |s|
  {
    if s == [] then 0
    else if s[0] == x then 0
    else 1 + IndexOf(s[1..], x)
  }

  /**
   * `add_next` and `rmv_next` are inverse on the child array: registering a
   * child whose byte is absent, then removing by that byte, gives back the
   * original children; the removal finds the child exactly where it went in.
   */
  lemma {:induction false} AddThenRemoveChild<D>(h: Heap<D>, s: seq<Ref>, c: Ref)
    requires AllIn(h, s) && c in h
    requires FirstWithDif(h, s, h[c].dif) == |s|
    ensures AllIn(h, Insert(s, InsertPos(h, s, h[c].dif), c))
    ensures FirstWithDif(h, Insert(s, InsertPos(h, s, h[c].dif), c), h[c].dif) == InsertPos(h, s, h[c].dif)
    ensures Remove(Insert(s, InsertPos(h, s, h[c].dif), c), InsertPos(h, s, h[c].dif)) == s
  {
    var p := InsertPos(h, s, h[c].dif);
    var t := Insert(s, p, c);
    assert forall j :: 0 <= j < p ==> t[j] == s[j];
    assert t[p] == c;
    var i := FirstWithDif(h, t, h[c].dif);
    assert i == p;
    assert t[..p] == s[..p];
    assert t[p + 1..] == s[p..];
  }

  /** `link_layer` and `unlink_layer` are inverse on the chain: removing what was inserted gives back the chain. */
  lemma LinkThenUnlink(s: seq<Ref>, i: nat, x: Ref)
    requires i <= |s| && x !in s
    ensures IndexOf(Insert(s, i, x), x) == i
    ensures Remove(Insert(s, i, x), i) == s
  {
    var t := Insert(s, i, x);
    assert forall j :: 0 <= j < i ==> t[j] == s[j];
    assert t[i] == x;
    assert t[..i] == s[..i];
    assert t[i + 1..] == s[i..];
  }

  /** Inserting keeps every old entry and adds the new one. */
  lemma InsertHas(s: seq<Ref>, i: nat, x: Ref)
    requires i <= |s|
    ensures forall y :: y in Insert(s, i, x) <==> y in s || y == x
  {
    assert s == s[..i] + s[i..];
  }

  /** Removing index `k` keeps every entry other than the one removed, when entries are distinct. */
  lemma RemoveHas(s: seq<Ref>, k: nat)
    requires k < |s|
    requires forall i, j :: 0 <= i < j < |s| ==> s[i] != s[j]
    ensures forall y :: y in Remove(s, k) <==> y in s && y != s[k]
  {
    var t := Remove(s, k);
    assert s == s[..k] + [s[k]] + s[k + 1..];
    forall y | y in t
      ensures y != s[k]
    {
      var j :| 0 <= j < |t| && t[j] == y;
      if j < k {
        assert t[j] == s[j];
      } else {
        assert t[j] == s[j + 1];
      }
    }
  }

  /** Strict sortedness only depends on the bytes of the listed nodes. */
  lemma StrictlySortedFrame<D>(h: Heap<D>, h': Heap<D>, s: seq<Ref>)
    requires AllIn(h, s) && StrictlySorted(h, s)
    requires forall i :: 0 <= i < |s| ==> s[i] in h' && h'[s[i]].dif == h[s[i]].dif
    ensures AllIn(h', s) && StrictlySorted(h', s)
  {
    assert AllIn(h', s);
    forall i, j | 0 <= i < j < |s|
      ensures Signed(h'[s[i]].dif) < Signed(h'[s[j]].dif)
    {
    }
  }

  /** A strictly sorted array repeats no handle. */
  lemma StrictlySortedDistinct<D>(h: Heap<D>, s: seq<Ref>)
    requires AllIn(h, s) && StrictlySorted(h, s)
    ensures forall i, j :: 0 <= i < j < |s| ==> s[i] != s[j]
  {
    forall i, j | 0 <= i < j < |s|
      ensures s[i] != s[j]
    {
      assert Signed(h[s[i]].dif) < Signed(h[s[j]].dif);
    }
  }
}

/**
 * What `__setitem__` and `__delitem__` do to a branch, as functions on node values: `Insert`
 * follows the three branches of the insertion loop (descend on a whole label, split a label on
 * the longest common prefix, or hang a new leaf), `Unset` follows the `_next` walk and clears the
 * value slot it ends on. The lemmas state their effect on the abstract dictionary and on the
 * structural invariants. The loops themselves are the methods of the `Trie` class.
 */
module Mutator {
  import opened Wrappers
  import opened Nodes
  import opened Enumerator

  /** The length of the longest common prefix of `a` and `b`. */
  function CommonPrefix(a: string, b: string): (r: nat)
    ensures r <= |a| && r <= |b| && a[..r] == b[..r]
    ensures r < |a| && r < |b| ==> a[r] != b[r]
  {
    if a == [] || b == [] || a[0] != b[0] then 0 else 1 + CommonPrefix(a[1..], b[1..])
  }

  lemma CommonPrefixIs(a: string, b: string, r: nat)
    requires r <= |a| && r <= |b| && a[..r] == b[..r]
    requires r == |a| || r == |b| || a[r] != b[r]
    ensures r == CommonPrefix(a, b)
  {
    var c := CommonPrefix(a, b);
    SamePrefix(a, b, r);
    SamePrefix(a, b, c);
  }

  lemma SamePrefix(a: string, b: string, r: nat)
    requires r <= |a| && r <= |b| && a[..r] == b[..r]
    ensures forall j :: 0 <= j < r ==> a[j] == b[j]
    ensures r == |a| ==> a <= b
  {
    forall j | 0 <= j < r ensures a[j] == b[j] {
      assert a[..r][j] == a[j] && b[..r][j] == b[j];
    }
  }

  /**
   * The split loop of `__setitem__` with the bound `min(len(edge), keylen - idx)`: the length of
   * the common prefix of the label and the remaining key. It is reached only when the label is
   * not a prefix of the remaining key but starts with the same symbol.
   */
  method SplitPoint(edge: string, rest: string) returns (pos: nat)
    requires edge != [] && rest != [] && edge[0] == rest[0] && !(edge <= rest)
    ensures pos == CommonPrefix(edge, rest)
    ensures 1 <= pos < |edge| && pos <= |rest| && edge[..pos] == rest[..pos]
  {
    pos := 1;
    SamePrefix(edge, rest, pos);
    var last := if |edge| < |rest| then |edge| else |rest|;
    while pos < last && edge[pos] == rest[pos]
      invariant 1 <= pos <= last && pos < |edge|
      invariant edge[..pos] == rest[..pos]
      decreases last - pos
    {
      pos := pos + 1;
      SamePrefix(edge, rest, pos);
    }
    CommonPrefixIs(edge, rest, pos);
  }

  /** The end of the split loop as written: the common prefix length, or Python's `IndexError`. */
  datatype Probe = Stop(pos: nat) | IndexError

  /**
   * The split loop as written, bounded by `max(len(edge), keylen - idx)`: it reads past the end of
   * the key exactly when the remaining key is a proper prefix of the label.
   */
  method SplitPointAsWritten(edge: string, rest: string) returns (r: Probe)
    requires edge != [] && rest != [] && edge[0] == rest[0] && !(edge <= rest)
    ensures r.IndexError? <==> |rest| < |edge| && rest <= edge
    ensures r.Stop? ==> r.pos == CommonPrefix(edge, rest)
  {
    var pos := 1;
    SamePrefix(edge, rest, pos);
    var last := if |edge| < |rest| then |rest| else |edge|;
    while pos < last
      invariant 1 <= pos <= last && pos < |edge| && pos <= |rest|
      invariant edge[..pos] == rest[..pos]
      decreases last - pos
    {
      if pos == |rest| {
        assert rest == edge[..pos];
        return IndexError;
      }
      if edge[pos] != rest[pos] {
        break;
      }
      pos := pos + 1;
      SamePrefix(edge, rest, pos);
    }
    CommonPrefixIs(edge, rest, pos);
    return Stop(pos);
  }

  /** Inserting `'foo'` after `'foobar'`: the loop as written meets the end of `'foo'`. */
  method FooAfterFoobar() returns (r: Probe)
    ensures r == IndexError
  {
    assert "foobar"[..3] == "foo";
    r := SplitPointAsWritten("foobar", "foo");
  }

  /** What one round of the edge loop of `__setitem__` does for the remaining key. */
  datatype Step = Descend(i: nat) | Split(i: nat) | NewLeaf

  /**
   * The edge loop of `__setitem__`: the first edge whose whole label occurs in `key` at `idx`, or
   * else the first that starts with `key[idx]`; `NewLeaf` when the loop runs out.
   */
  method Choose<V>(es: seq<Edge<V>>, key: string, idx: nat) returns (s: Step)
    requires Labels(es) && idx < |key|
    ensures s.Descend? ==> Lead(es, key[idx]) == Some(s.i) && StartsWith(key, es[s.i].text, idx)
    ensures s.Split? ==> Lead(es, key[idx]) == Some(s.i) && !StartsWith(key, es[s.i].text, idx)
    ensures s.NewLeaf? ==> Lead(es, key[idx]).None?
  {
    for i := 0 to |es|
      invariant forall j :: 0 <= j < i ==> es[j].text[0] != key[idx]
    {
      if StartsWith(key, es[i].text, idx) {
        LeadUnique(es, i, key[idx]);
        return Descend(i);
      } else if es[i].text[0] == key[idx] {
        LeadUnique(es, i, key[idx]);
        return Split(i);
      }
    }
    return NewLeaf;
  }

  /** `es` without its `i`-th edge, the others in their order (`del node._edges[edge]`). */
  function RemoveAt<T>(es: seq<T>, i: nat): seq<T>
    requires i < |es|
  {
    es[..i] + es[i + 1..]
  }

  /** The node that a split puts between a node and the child behind a label cut at `p`. */
  function SplitNode<V>(e: Edge<V>, p: nat): Node<V>
    requires p <= |e.text|
  {
    Node(None, [Edge(e.text[p..], e.child)])
  }

  /** The effect of `T[r] = v` on the branch `n`. */
  function Insert<V>(n: Node<V>, r: string, v: V): Node<V>
    decreases |r|
  {
    if r == [] then Node(Some(v), n.edges)
    else match Lead(n.edges, r[0])
      case None => Node(n.value, n.edges + [Edge(r, Node(Some(v), []))])
      case Some(i) =>
        var e := n.edges[i];
        if e.text <= r then
          Node(n.value, n.edges[i := Edge(e.text, Insert(e.child, r[|e.text|..], v))])
        else
          var p := CommonPrefix(e.text, r);
          Node(n.value, RemoveAt(n.edges, i) + [Edge(e.text[..p], Insert(SplitNode(e, p), r[p..], v))])
  }

  /** The effect of `del T[r]` on the branch `n`, for a stored `r`: the slot it reaches is cleared. */
  function Unset<V>(n: Node<V>, r: string): Node<V>
    decreases |r|
  {
    if r == [] then Node(None, n.edges)
    else match Lead(n.edges, r[0])
      case None => n
      case Some(i) =>
        var e := n.edges[i];
        if e.text <= r then Node(n.value, n.edges[i := Edge(e.text, Unset(e.child, r[|e.text|..]))])
        else n
  }

  /** A node with one of its edges cut open; `Fill` puts a child back in the hole. */
  datatype Frame<V> = Frame(value: Option<V>, before: seq<Edge<V>>, text: string, after: seq<Edge<V>>)

  function Fill<V>(f: Frame<V>, child: Node<V>): Node<V>
  {
    Node(f.value, f.before + [Edge(f.text, child)] + f.after)
  }

  /** The tree rebuilt around `n` from the frames of a walk, the innermost frame last. */
  function Plug<V>(path: seq<Frame<V>>, n: Node<V>): Node<V>
    decreases |path|
  {
    if path == [] then n else Plug(path[..|path| - 1], Fill(path[|path| - 1], n))
  }

  lemma PlugStep<V>(path: seq<Frame<V>>, f: Frame<V>, n: Node<V>)
    ensures Plug(path + [f], n) == Plug(path, Fill(f, n))
  {
    assert (path + [f])[..|path|] == path;
  }

  /** The frame a walk leaves behind when it follows the `i`-th edge of `n`. */
  function Open<V>(n: Node<V>, i: nat): Frame<V>
    requires i < |n.edges|
  {
    Frame(n.value, n.edges[..i], n.edges[i].text, n.edges[i + 1..])
  }

  /** Descending: inserting into `n` is inserting into the child behind the whole label. */
  lemma InsertDescendFill<V>(n: Node<V>, r: string, v: V, i: nat)
    requires r != [] && Lead(n.edges, r[0]) == Some(i) && n.edges[i].text <= r
    ensures Insert(n, r, v) == Fill(Open(n, i), Insert(n.edges[i].child, r[|n.edges[i].text|..], v))
  {
    var e := n.edges[i];
    var x := Edge(e.text, Insert(e.child, r[|e.text|..], v));
    assert n.edges[i := x] == n.edges[..i] + [x] + n.edges[i + 1..];
  }

  /** Splitting: inserting into `n` is inserting into the split node that replaces the label. */
  lemma InsertSplitFill<V>(n: Node<V>, r: string, v: V, i: nat)
    requires r != [] && Lead(n.edges, r[0]) == Some(i) && !(n.edges[i].text <= r)
    ensures var e := n.edges[i]; var p := CommonPrefix(e.text, r);
      Insert(n, r, v) == Fill(Frame(n.value, RemoveAt(n.edges, i), e.text[..p], []), Insert(SplitNode(e, p), r[p..], v))
  {
    var e := n.edges[i];
    var p := CommonPrefix(e.text, r);
    var x := Edge(e.text[..p], Insert(SplitNode(e, p), r[p..], v));
    assert RemoveAt(n.edges, i) + [x] + [] == RemoveAt(n.edges, i) + [x];
  }

  /**
   * The new leaf: once `key[idx:]` hangs below `n`, inserting the same key again changes nothing;
   * the next round of the loop descends into the leaf.
   */
  lemma InsertLeafSame<V>(n: Node<V>, r: string, v: V)
    requires r != [] && Lead(n.edges, r[0]).None?
    ensures Insert(Insert(n, r, v), r, v) == Insert(n, r, v)
    ensures Lead(Insert(n, r, v).edges, r[0]).Some?
  {
    var leaf := Edge(r, Node(Some(v), []));
    LeadAppend(n.edges, leaf, r[0]);
    assert r[|r|..] == [];
    assert (n.edges + [leaf])[|n.edges| := leaf] == n.edges + [leaf];
  }

  /**
   * One descend round of the `__setitem__` loop keeps the rebuilt tree equal to the goal: the walk
   * moves to the child, past the whole label, with the frame of the edge on the path.
   */
  lemma SetDescend<V>(path: seq<Frame<V>>, n: Node<V>, key: string, idx: nat, v: V, i: nat,
                      path': seq<Frame<V>>, n': Node<V>, idx': nat)
    requires idx < |key| && i < |n.edges| && Lead(n.edges, key[idx]) == Some(i)
    requires StartsWith(key, n.edges[i].text, idx)
    requires path' == path + [Open(n, i)] && n' == n.edges[i].child && idx' == idx + |n.edges[i].text|
    ensures idx' <= |key|
    ensures Plug(path', Insert(n', key[idx'..], v)) == Plug(path, Insert(n, key[idx..], v))
  {
    var e := n.edges[i];
    var rest := key[idx..];
    StartsWithRest(key, e.text, idx);
    InsertDescendFill(n, rest, v, i);
    assert rest[|e.text|..] == key[idx + |e.text|..];
    PlugStep(path, Open(n, i), Insert(e.child, key[idx + |e.text|..], v));
  }

  /**
   * One split round: the split node takes the place of the label in the rebuilt tree, and the walk
   * moves to it, past the common prefix `pos`.
   */
  lemma SetSplit<V>(path: seq<Frame<V>>, n: Node<V>, key: string, idx: nat, v: V, i: nat, pos: nat,
                    path': seq<Frame<V>>, n': Node<V>, idx': nat)
    requires idx < |key| && i < |n.edges| && Lead(n.edges, key[idx]) == Some(i)
    requires !StartsWith(key, n.edges[i].text, idx)
    requires pos == CommonPrefix(n.edges[i].text, key[idx..])
    requires path' == path + [Frame(n.value, RemoveAt(n.edges, i), n.edges[i].text[..pos], [])]
    requires n' == SplitNode(n.edges[i], pos) && idx' == idx + pos
    ensures idx' <= |key|
    ensures Plug(path', Insert(n', key[idx'..], v)) == Plug(path, Insert(n, key[idx..], v))
  {
    var e := n.edges[i];
    var rest := key[idx..];
    StartsWithRest(key, e.text, idx);
    InsertSplitFill(n, rest, v, i);
    assert rest[pos..] == key[idx + pos..];
    var f := Frame(n.value, RemoveAt(n.edges, i), e.text[..pos], []);
    PlugStep(path, f, Insert(SplitNode(e, pos), key[idx + pos..], v));
  }

  /** One delete round: the walk moves into the child and the frame goes onto the path. */
  lemma DeleteDescend<V>(path: seq<Frame<V>>, n: Node<V>, key: string, idx: nat, i: nat)
    requires Labels(n.edges) && idx < |key| && i < |n.edges|
    requires StartsWith(key, n.edges[i].text, idx)
    ensures idx + |n.edges[i].text| <= |key|
    ensures Plug(path + [Open(n, i)], Unset(n.edges[i].child, key[idx + |n.edges[i].text|..]))
      == Plug(path, Unset(n, key[idx..]))
  {
    var e := n.edges[i];
    var rest := key[idx..];
    StartsWithRest(key, e.text, idx);
    LeadUnique(n.edges, i, rest[0]);
    UnsetDescendFill(n, rest, i);
    assert rest[|e.text|..] == key[idx + |e.text|..];
    PlugStep(path, Open(n, i), Unset(e.child, key[idx + |e.text|..]));
  }

  /** Deleting below `n` is deleting below the child behind the whole label. */
  lemma UnsetDescendFill<V>(n: Node<V>, r: string, i: nat)
    requires r != [] && Lead(n.edges, r[0]) == Some(i) && n.edges[i].text <= r
    ensures Unset(n, r) == Fill(Open(n, i), Unset(n.edges[i].child, r[|n.edges[i].text|..]))
  {
    var e := n.edges[i];
    var x := Edge(e.text, Unset(e.child, r[|e.text|..]));
    assert n.edges[i := x] == n.edges[..i] + [x] + n.edges[i + 1..];
  }

  lemma LeadAppend<V>(es: seq<Edge<V>>, x: Edge<V>, c: char)
    requires Lead(es, c).None? && x.text != [] && x.text[0] == c
    ensures Lead(es + [x], c) == Some(|es|)
  {
    assert forall j :: 0 <= j < |es| ==> (es + [x])[j] == es[j];
    assert (es + [x])[|es|] == x;
  }

  lemma LabelsAppend<V>(es: seq<Edge<V>>, x: Edge<V>)
    requires Labels(es) && x.text != [] && Lead(es, x.text[0]).None?
    ensures Labels(es + [x])
  {
  }

  lemma LabelsReplace<V>(es: seq<Edge<V>>, i: nat, x: Edge<V>)
    requires Labels(es) && i < |es| && x.text != [] && x.text[0] == es[i].text[0]
    ensures Labels(RemoveAt(es, i) + [x])
  {
    var rs := RemoveAt(es, i) + [x];
    forall a | 0 <= a < |rs| - 1 ensures rs[a] == es[if a < i then a else a + 1] {
    }
  }

  /** A leaf holds its value at the empty path and nothing below. */
  lemma StoredLeaf<V>(v: V, q: string)
    ensures Stored(Node(Some(v), []), q) == if q == [] then Some(v) else None
  {
    if q != [] {
      SlotsNone(Node(Some(v), []), q);
    }
  }

  /** `Insert` keeps every label non-empty and the first symbols of each node's labels distinct. */
  lemma {:induction false} InsertValid<V>(n: Node<V>, r: string, v: V)
    requires Valid(n)
    ensures Valid(Insert(n, r, v))
    decreases |r|
  {
    if r != [] {
      match Lead(n.edges, r[0])
      case None =>
        LabelsAppend(n.edges, Edge(r, Node(Some(v), [])));
      case Some(i) =>
        var e := n.edges[i];
        if e.text <= r {
          InsertValid(e.child, r[|e.text|..], v);
        } else {
          var p := CommonPrefix(e.text, r);
          InsertValid(SplitNode(e, p), r[p..], v);
          LabelsReplace(n.edges, i, Edge(e.text[..p], Insert(SplitNode(e, p), r[p..], v)));
          var rs := RemoveAt(n.edges, i) + [Edge(e.text[..p], Insert(SplitNode(e, p), r[p..], v))];
          forall a | 0 <= a < |rs| - 1 ensures rs[a] == n.edges[if a < i then a else a + 1] {
          }
        }
    }
  }

  /** After `T[r] = v` the key `r` holds `v` and every other key keeps its value. */
  lemma {:induction false} InsertStored<V>(n: Node<V>, r: string, v: V, k: string)
    requires Valid(n)
    ensures Stored(Insert(n, r, v), k) == if k == r then Some(v) else Stored(n, k)
    decreases |r|
  {
    InsertValid(n, r, v);
    if k == [] || r == [] || k[0] != r[0] {
      InsertElsewhere(n, r, v, k);
    } else {
      match Lead(n.edges, r[0])
      case None =>
        InsertLeafAt(n, r, v, k);
      case Some(i) =>
        var e := n.edges[i];
        if e.text <= r {
          if e.text <= k {
            InsertStored(e.child, r[|e.text|..], v, k[|e.text|..]);
          }
          InsertDescendAt(n, r, v, k, i);
        } else {
          var p := CommonPrefix(e.text, r);
          SamePrefix(e.text, r, p);
          SplitStored(e, p, k);
          if e.text[..p] <= k {
            InsertStored(SplitNode(e, p), r[p..], v, k[p..]);
          }
          InsertSplitAt(n, r, v, k, i);
        }
    }
  }

  /** A path that does not run through the inserted key's first edge is left alone. */
  lemma InsertElsewhere<V>(n: Node<V>, r: string, v: V, k: string)
    requires Valid(n) && Valid(Insert(n, r, v))
    requires k == [] || r == [] || k[0] != r[0]
    ensures Stored(Insert(n, r, v), k) == if k == r then Some(v) else Stored(n, k)
  {
    if k == [] || r == [] {
      InsertAtRoot(n, r, v, k);
    } else {
      InsertOtherEdge(n, r, v, k);
    }
  }

  lemma InsertAtRoot<V>(n: Node<V>, r: string, v: V, k: string)
    requires Valid(n) && Valid(Insert(n, r, v))
    requires k == [] || r == []
    ensures Stored(Insert(n, r, v), k) == if k == r then Some(v) else Stored(n, k)
  {
    var m := Insert(n, r, v);
    if r == [] {
      assert m == Node(Some(v), n.edges);
      SlotsRoot(m);
      SlotsRoot(n);
      if k != [] {
        StoredAgree(m, n, k);
      }
    } else {
      InsertKeepsValue(n, r, v);
      SlotsRoot(m);
      SlotsRoot(n);
    }
  }

  /** A non-empty key leaves the value slot of the node it starts from alone. */
  lemma InsertKeepsValue<V>(n: Node<V>, r: string, v: V)
    requires r != []
    ensures Insert(n, r, v).value == n.value
  {
  }

  lemma InsertOtherEdge<V>(n: Node<V>, r: string, v: V, k: string)
    requires Valid(n) && Valid(Insert(n, r, v))
    requires k != [] && r != [] && k[0] != r[0]
    ensures Stored(Insert(n, r, v), k) == Stored(n, k)
  {
    var m := Insert(n, r, v);
    forall e | e in m.edges && e.text[0] == k[0] ensures e in n.edges {
      InsertKeeps(n, r, v, e);
    }
    forall e | e in n.edges && e.text[0] == k[0] ensures e in m.edges {
      InsertKept(n, r, v, e);
    }
    StoredAgree(m, n, k);
  }

  /** The new-leaf branch: the leaf spells the remaining key and nothing else. */
  lemma InsertLeafAt<V>(n: Node<V>, r: string, v: V, k: string)
    requires Valid(n) && Valid(Insert(n, r, v))
    requires r != [] && k != [] && k[0] == r[0] && Lead(n.edges, r[0]).None?
    ensures Stored(Insert(n, r, v), k) == if k == r then Some(v) else Stored(n, k)
  {
    var m := Insert(n, r, v);
    StoredLead(n, k);
    StoredLead(m, k);
    LeadAppend(n.edges, Edge(r, Node(Some(v), [])), r[0]);
    if r <= k {
      StoredLeaf(v, k[|r|..]);
      if k[|r|..] == [] {
        assert k == r;
      }
    }
  }

  /** The descend branch: the child takes the rest of the key. */
  lemma InsertDescendAt<V>(n: Node<V>, r: string, v: V, k: string, i: nat)
    requires Valid(n) && Valid(Insert(n, r, v))
    requires r != [] && k != [] && k[0] == r[0] && Lead(n.edges, r[0]) == Some(i)
    requires n.edges[i].text <= r
    requires var t := n.edges[i].text; t <= k ==>
      Stored(Insert(n.edges[i].child, r[|t|..], v), k[|t|..])
        == if k[|t|..] == r[|t|..] then Some(v) else Stored(n.edges[i].child, k[|t|..])
    ensures Stored(Insert(n, r, v), k) == if k == r then Some(v) else Stored(n, k)
  {
    var m := Insert(n, r, v);
    var t := n.edges[i].text;
    StoredLead(n, k);
    StoredLead(m, k);
    LeadUnique(m.edges, i, r[0]);
    if t <= k {
      assert k == t + k[|t|..] && r == t + r[|t|..];
    }
  }

  /** The split branch: the split node takes the rest of the key after the common prefix. */
  lemma InsertSplitAt<V>(n: Node<V>, r: string, v: V, k: string, i: nat)
    requires Valid(n) && Valid(Insert(n, r, v))
    requires r != [] && k != [] && k[0] == r[0] && Lead(n.edges, r[0]) == Some(i)
    requires !(n.edges[i].text <= r)
    requires var e := n.edges[i]; var p := CommonPrefix(e.text, r);
      1 <= p < |e.text| &&
      (e.text[..p] <= k ==>
        Stored(SplitNode(e, p), k[p..]) == (if e.text <= k then Stored(e.child, k[|e.text|..]) else None))
    requires var e := n.edges[i]; var p := CommonPrefix(e.text, r); e.text[..p] <= k ==>
      Stored(Insert(SplitNode(e, p), r[p..], v), k[p..])
        == if k[p..] == r[p..] then Some(v) else Stored(SplitNode(e, p), k[p..])
    ensures Stored(Insert(n, r, v), k) == if k == r then Some(v) else Stored(n, k)
  {
    var m := Insert(n, r, v);
    var e := n.edges[i];
    var p := CommonPrefix(e.text, r);
    StoredLead(n, k);
    StoredLead(m, k);
    LeadUnique(m.edges, |m.edges| - 1, r[0]);
    if e.text[..p] <= k {
      Rejoin(k, p);
      Rejoin(r, p);
      assert k[..p] == e.text[..p] && r[..p] == e.text[..p];
    }
  }

  /** The split node spells, after the cut-off head of the label, what the whole label spelled. */
  lemma SplitStored<V>(e: Edge<V>, p: nat, k: string)
    requires Valid(e.child) && 1 <= p < |e.text|
    ensures Valid(SplitNode(e, p))
    ensures e.text[..p] <= k ==>
      Stored(SplitNode(e, p), k[p..]) == if e.text <= k then Stored(e.child, k[|e.text|..]) else None
  {
    var s := SplitNode(e, p);
    var tail := e.text[p..];
    assert s.edges[0] == Edge(tail, e.child);
    if e.text[..p] <= k {
      var q := k[p..];
      if q == [] {
        SlotsRoot(s);
      } else {
        StoredLead(s, q);
        if tail[0] == q[0] {
          LeadUnique(s.edges, 0, q[0]);
          assert e.text == e.text[..p] + tail && k == e.text[..p] + q;
          if tail <= q {
            assert q[|tail|..] == k[|e.text|..];
          }
        } else {
          assert e.text[p] != k[p];
        }
      }
    }
  }

  /** Edges of the inserted-into node that do not start with the key's first symbol were there before. */
  lemma InsertKeeps<V>(n: Node<V>, r: string, v: V, e: Edge<V>)
    requires Valid(n) && r != [] && e in Insert(n, r, v).edges && e.text != [] && e.text[0] != r[0]
    ensures e in n.edges
  {
    var j :| 0 <= j < |Insert(n, r, v).edges| && Insert(n, r, v).edges[j] == e;
    match Lead(n.edges, r[0])
    case None =>
      assert j < |n.edges| && n.edges[j] == e;
    case Some(i) =>
      if n.edges[i].text <= r {
        assert j != i && n.edges[j] == e;
      } else {
        assert j < |n.edges| - 1;
        assert n.edges[if j < i then j else j + 1] == e;
      }
  }

  /** Edges that do not start with the key's first symbol survive the insertion. */
  lemma InsertKept<V>(n: Node<V>, r: string, v: V, e: Edge<V>)
    requires Valid(n) && r != [] && e in n.edges && e.text[0] != r[0]
    ensures e in Insert(n, r, v).edges
  {
    var j :| 0 <= j < |n.edges| && n.edges[j] == e;
    match Lead(n.edges, r[0])
    case None =>
      assert Insert(n, r, v).edges[j] == e;
    case Some(i) =>
      if n.edges[i].text <= r {
        InsertKeptDescend(n, r, v, i, j);
      } else {
        InsertKeptSplit(n, r, v, i, j);
      }
  }

  lemma InsertKeptDescend<V>(n: Node<V>, r: string, v: V, i: nat, j: nat)
    requires r != [] && Lead(n.edges, r[0]) == Some(i) && n.edges[i].text <= r
    requires j < |n.edges| && j != i
    ensures n.edges[j] in Insert(n, r, v).edges
  {
    var e := n.edges[i];
    var es := n.edges[i := Edge(e.text, Insert(e.child, r[|e.text|..], v))];
    assert Insert(n, r, v).edges == es;
    assert es[j] == n.edges[j];
  }

  lemma InsertKeptSplit<V>(n: Node<V>, r: string, v: V, i: nat, j: nat)
    requires r != [] && Lead(n.edges, r[0]) == Some(i) && !(n.edges[i].text <= r)
    requires j < |n.edges| && j != i
    ensures n.edges[j] in Insert(n, r, v).edges
  {
    var e := n.edges[i];
    var p := CommonPrefix(e.text, r);
    var es := RemoveAt(n.edges, i) + [Edge(e.text[..p], Insert(SplitNode(e, p), r[p..], v))];
    assert Insert(n, r, v).edges == es;
    var a := if j < i then j else j - 1;
    assert es[a] == n.edges[j];
  }

  /** `T[r] = v`: the stored dictionary gains or overwrites the one entry `r: v`. */
  lemma InsertContents<V>(n: Node<V>, r: string, v: V)
    requires Valid(n)
    ensures Contents(Insert(n, r, v)) == Contents(n)[r := v]
  {
    var m := Insert(n, r, v);
    forall k ensures (k in Contents(m)) == (k in Contents(n)[r := v]) {
      InsertStored(n, r, v, k);
    }
    forall k | k in Contents(m) ensures Contents(m)[k] == Contents(n)[r := v][k] {
      InsertStored(n, r, v, k);
    }
  }

  /** `len(T)` grows by one for a new key and stays the same when a key is overwritten. */
  lemma InsertCount<V>(n: Node<V>, r: string, v: V)
    requires Valid(n)
    ensures Count(Insert(n, r, v)) == if r in Contents(n) then Count(n) else Count(n) + 1
  {
    InsertValid(n, r, v);
    InsertContents(n, r, v);
    CountContents(n);
    CountContents(Insert(n, r, v));
  }

  /** Clearing a slot keeps the structural invariants. */
  lemma {:induction false} UnsetValid<V>(n: Node<V>, r: string)
    requires Valid(n)
    ensures Valid(Unset(n, r))
    decreases |r|
  {
    if r != [] {
      match Lead(n.edges, r[0])
      case None =>
      case Some(i) =>
        var e := n.edges[i];
        if e.text <= r {
          UnsetValid(e.child, r[|e.text|..]);
        }
    }
  }

  /** `del T[r]` adds and removes no edge: the structural path set stays the same. */
  lemma {:induction false} UnsetPaths<V>(n: Node<V>, r: string, k: string)
    requires Valid(n)
    ensures k in Paths(Unset(n, r)) <==> k in Paths(n)
    decreases |r|
  {
    var m := Unset(n, r);
    UnsetValid(n, r);
    if k == [] {
      SlotsRoot(m);
      SlotsRoot(n);
    } else if r == [] {
      StoredAgree(m, n, k);
    } else {
      match Lead(n.edges, r[0])
      case None =>
      case Some(i) =>
        var e := n.edges[i];
        if e.text <= r {
          StoredLead(n, k);
          StoredLead(m, k);
          if k[0] == r[0] {
            LeadUnique(m.edges, i, k[0]);
            if e.text <= k {
              UnsetPaths(e.child, r[|e.text|..], k[|e.text|..]);
            }
          } else {
            assert forall c :: c != r[0] ==> Lead(m.edges, c) == Lead(n.edges, c) by {
              forall c | c != r[0] ensures Lead(m.edges, c) == Lead(n.edges, c) {
                if Lead(n.edges, c).Some? {
                  LeadUnique(m.edges, Lead(n.edges, c).value, c);
                }
                if Lead(m.edges, c).Some? {
                  LeadUnique(n.edges, Lead(m.edges, c).value, c);
                }
              }
            }
          }
        }
    }
  }

  /** After `del T[r]` the key `r` is absent and every other key keeps its value. */
  lemma {:induction false} UnsetStored<V>(n: Node<V>, r: string, k: string)
    requires Valid(n)
    ensures Stored(Unset(n, r), k) == if k == r then None else Stored(n, k)
    decreases |r|
  {
    var m := Unset(n, r);
    UnsetValid(n, r);
    if k == [] || r == [] {
      SlotsRoot(m);
      SlotsRoot(n);
      if k != [] {
        StoredAgree(m, n, k);
      }
    } else {
      StoredLead(n, k);
      StoredLead(m, k);
      match Lead(n.edges, r[0])
      case None =>
        if k == r {
          assert Stored(n, k) == None;
        }
      case Some(i) =>
        var e := n.edges[i];
        if e.text <= r {
          if k[0] == r[0] {
            LeadUnique(m.edges, i, k[0]);
            if e.text <= k {
              UnsetStored(e.child, r[|e.text|..], k[|e.text|..]);
              assert k == e.text + k[|e.text|..] && r == e.text + r[|e.text|..];
            }
          } else {
            if Lead(n.edges, k[0]).Some? {
              LeadUnique(m.edges, Lead(n.edges, k[0]).value, k[0]);
            }
            if Lead(m.edges, k[0]).Some? {
              LeadUnique(n.edges, Lead(m.edges, k[0]).value, k[0]);
            }
          }
        } else if k == r {
          assert Stored(n, k) == None;
        }
    }
  }

  /** `del T[r]`: the stored dictionary loses exactly the entry for `r`. */
  lemma UnsetContents<V>(n: Node<V>, r: string)
    requires Valid(n)
    ensures Contents(Unset(n, r)) == Contents(n) - {r}
  {
    var m := Unset(n, r);
    forall k ensures (k in Contents(m)) == (k in Contents(n) - {r}) {
      UnsetStored(n, r, k);
    }
    forall k | k in Contents(m) ensures Contents(m)[k] == Contents(n)[k] {
      UnsetStored(n, r, k);
    }
  }

  /** Deleting a stored key makes `len(T)` drop by exactly one. */
  lemma UnsetCount<V>(n: Node<V>, r: string)
    requires Valid(n) && r in Contents(n)
    ensures Count(Unset(n, r)) == Count(n) - 1
  {
    UnsetValid(n, r);
    UnsetContents(n, r);
    CountContents(n);
    CountContents(Unset(n, r));
    assert (Contents(n) - {r}).Keys == Contents(n).Keys - {r};
  }
}

/** The read-only attribute dictionary the OID translation walks: each attribute
  * has a number under its parent, a type and a depth, and children are found by
  * number (fr_dict_attr_child_by_num). The dictionary code itself is not part of
  * this model; only the lookups radsnmp relies on are. */
module Dict {
  import opened Wrappers

  /** Attribute types the translation distinguishes (PW_TYPE_*). */
  datatype AttrType = Integer | String | Octets | Tlv | Other

  type NodeId = nat

  /** One dictionary attribute. A node of depth 0 is a top-level node. */
  datatype Attr = Attr(num: nat, kind: AttrType, parent: NodeId, depth: nat)

  /** Attributes by id, and the child of a node by attribute number. */
  datatype Tree = Tree(attrs: map<NodeId, Attr>, children: map<(NodeId, nat), NodeId>)

  /** An attribute's number fits an `unsigned int`, and a node below the top
    * level sits one level under its parent and is that parent's child by number. */
  predicate ParentOk(t: Tree, n: NodeId)
    requires n in t.attrs
  {
    var a := t.attrs[n];
    && a.num < 0x1_0000_0000
    && (a.depth > 0 ==>
          && a.parent in t.attrs
          && t.attrs[a.parent].depth + 1 == a.depth
          && (a.parent, a.num) in t.children
          && t.children[(a.parent, a.num)] == n)
  }

  /** A child-table entry names a node with that parent and that number. */
  predicate ChildOk(t: Tree, k: (NodeId, nat))
    requires k in t.children
  {
    && k.0 in t.attrs && t.children[k] in t.attrs
    && t.attrs[t.children[k]].parent == k.0
    && t.attrs[t.children[k]].num == k.1
    && t.attrs[t.children[k]].depth == t.attrs[k.0].depth + 1
  }

  /** The parent links and the child table describe the same tree. The parent
    * facts are only drawn on through ParentFacts, one node at a time, so that the
    * prover does not climb parent chains by itself. */
  predicate Valid(t: Tree)
  {
    && (forall n {:trigger ParentOk(t, n)} :: n in t.attrs ==> ParentOk(t, n))
    && (forall k :: k in t.children ==> ChildOk(t, k))
  }

  lemma ParentFacts(t: Tree, n: NodeId)
    requires Valid(t) && n in t.attrs
    ensures t.attrs[n].num < 0x1_0000_0000
    ensures t.attrs[n].depth > 0 ==>
              && t.attrs[n].parent in t.attrs
              && t.attrs[t.attrs[n].parent].depth + 1 == t.attrs[n].depth
              && (t.attrs[n].parent, t.attrs[n].num) in t.children
              && t.children[(t.attrs[n].parent, t.attrs[n].num)] == n
  {
    assert ParentOk(t, n);
  }

  /** fr_dict_attr_child_by_num: the child of `p` numbered `n`, if any. */
  function ChildByNum(t: Tree, p: NodeId, n: nat): (r: Option<NodeId>)
    requires Valid(t)
    ensures r.Some? ==> r.value in t.attrs && t.attrs[r.value].num == n
                        && t.attrs[r.value].parent == p && t.attrs[r.value].depth > 0
    ensures r.None? ==> forall c :: c in t.attrs && t.attrs[c].depth > 0 && t.attrs[c].parent == p
                                    ==> t.attrs[c].num != n
  {
    if (p, n) in t.children then Some(t.children[(p, n)])
    else
      forall c | c in t.attrs && t.attrs[c].depth > 0 && t.attrs[c].parent == p
        ensures t.attrs[c].num != n
      {
        ParentFacts(t, c);
      }
      None
  }

  /** `a` is `b` or lies on the parent chain above `b`. */
  predicate IsAncestorOrSelf(t: Tree, a: NodeId, b: NodeId)
    requires Valid(t) && b in t.attrs
    decreases t.attrs[b].depth
  {
    ParentFacts(t, b);
    a == b || (t.attrs[b].depth > 0 && IsAncestorOrSelf(t, a, t.attrs[b].parent))
  }

  /** An ancestor is a dictionary node no deeper than its descendant. */
  lemma {:induction false} AncestorDepth(t: Tree, a: NodeId, b: NodeId)
    requires Valid(t) && b in t.attrs && IsAncestorOrSelf(t, a, b)
    ensures a in t.attrs && t.attrs[a].depth <= t.attrs[b].depth
    ensures a != b ==> t.attrs[a].depth < t.attrs[b].depth
    decreases t.attrs[b].depth
  {
    ParentFacts(t, b);
    if a != b {
      AncestorDepth(t, a, t.attrs[b].parent);
    }
  }

  /** fr_dict_parent_common(a, b, true): `a` when `a` is a proper ancestor of `b`,
    * otherwise nothing. */
  function ParentCommon(t: Tree, a: NodeId, b: NodeId): (r: Option<NodeId>)
    requires Valid(t) && b in t.attrs
    ensures r.Some? <==> a != b && IsAncestorOrSelf(t, a, b)
    ensures r.Some? ==> r.value == a
  {
    if a != b && IsAncestorOrSelf(t, a, b) then Some(a) else None
  }

  /** The attribute numbers on the way down from `a` (excluded) to `b` (included):
    * what dict_print_attr_oid prints between an ancestor and an attribute. */
  function OidPath(t: Tree, a: NodeId, b: NodeId): (r: seq<nat>)
    requires Valid(t) && b in t.attrs && IsAncestorOrSelf(t, a, b)
    ensures a in t.attrs && |r| + t.attrs[a].depth == t.attrs[b].depth
    ensures r != [] ==> r[|r| - 1] == t.attrs[b].num
    decreases t.attrs[b].depth
  {
    ParentFacts(t, b);
    if a == b then [] else OidPath(t, a, t.attrs[b].parent) + [t.attrs[b].num]
  }

  /** Follows child numbers down from `a` (repeated fr_dict_attr_child_by_num). */
  function Descend(t: Tree, a: NodeId, ns: seq<nat>): Option<NodeId>
    requires Valid(t)
  {
    if ns == [] then Some(a)
    else
      match Descend(t, a, ns[..|ns| - 1])
      case None => None
      case Some(m) => ChildByNum(t, m, ns[|ns| - 1])
  }

  /** Descending by a first number and then the rest. */
  lemma {:induction false} DescendCons(t: Tree, a: NodeId, x: nat, rest: seq<nat>)
    requires Valid(t)
    ensures Descend(t, a, [x] + rest) ==
              match ChildByNum(t, a, x)
              case None => None
              case Some(c) => Descend(t, c, rest)
    decreases |rest|
  {
    var ns := [x] + rest;
    if rest != [] {
      assert ns[..|ns| - 1] == [x] + rest[..|rest| - 1];
      DescendCons(t, a, x, rest[..|rest| - 1]);
    } else {
      assert ns[..|ns| - 1] == [];
    }
  }

  /** Looking up the printed path below an ancestor leads back to the attribute. */
  lemma {:induction false} DescendOidPath(t: Tree, a: NodeId, b: NodeId)
    requires Valid(t) && b in t.attrs && IsAncestorOrSelf(t, a, b)
    ensures Descend(t, a, OidPath(t, a, b)) == Some(b)
    decreases t.attrs[b].depth
  {
    ParentFacts(t, b);
    if a != b {
      var p := t.attrs[b].parent;
      DescendOidPath(t, a, p);
      var ns := OidPath(t, a, b);
      assert ns[..|ns| - 1] == OidPath(t, a, p);
    }
  }

  /** Every number on a printed path fits an `unsigned int`. */
  lemma {:induction false} OidPathBounded(t: Tree, a: NodeId, b: NodeId)
    requires Valid(t) && b in t.attrs && IsAncestorOrSelf(t, a, b)
    ensures forall i :: 0 <= i < |OidPath(t, a, b)| ==> OidPath(t, a, b)[i] < 0x1_0000_0000
    decreases t.attrs[b].depth
  {
    ParentFacts(t, b);
    if a != b {
      OidPathBounded(t, a, t.attrs[b].parent);
    }
  }

  /** The ancestor relation is transitive. */
  lemma {:induction false} AncestorTrans(t: Tree, a: NodeId, b: NodeId, c: NodeId)
    requires Valid(t) && b in t.attrs && c in t.attrs
    requires IsAncestorOrSelf(t, a, b) && IsAncestorOrSelf(t, b, c)
    ensures IsAncestorOrSelf(t, a, c)
    decreases t.attrs[c].depth
  {
    ParentFacts(t, c);
    if b != c {
      AncestorTrans(t, a, b, t.attrs[c].parent);
    }
  }

  /** Whatever lies beneath a node lies beneath that node's parent too. */
  lemma BelowChild(t: Tree, c: NodeId, x: NodeId)
    requires Valid(t) && c in t.attrs && x in t.attrs && t.attrs[c].depth > 0
    requires ParentCommon(t, c, x).Some?
    ensures ParentCommon(t, t.attrs[c].parent, x).Some?
  {
    ParentFacts(t, c);
    var p := t.attrs[c].parent;
    assert IsAncestorOrSelf(t, p, p);
    assert IsAncestorOrSelf(t, p, c);
    AncestorTrans(t, p, c, x);
    AncestorDepth(t, c, x);
  }

  /** A proper ancestor of `b` is an ancestor of (or is) `b`'s parent. */
  lemma ProperAncestor(t: Tree, a: NodeId, b: NodeId)
    requires Valid(t) && b in t.attrs && a != b && IsAncestorOrSelf(t, a, b)
    ensures t.attrs[b].depth > 0 && t.attrs[b].parent in t.attrs
    ensures IsAncestorOrSelf(t, a, t.attrs[b].parent)
  {
    ParentFacts(t, b);
  }
}

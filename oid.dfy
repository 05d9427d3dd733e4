/** radsnmp_pair_from_oid: an OID string becomes the index pairs it passes
  * through and the leaf pair it names. */
module OidParse {
  import opened Wrappers
  import opened Text
  import opened Dict
  import opened Pairs
  import opened Packet

  /** What fr_dict_attr_by_oid reports: a length (> 0 parsed to the end, <= 0
    * minus the offset of the component it could not resolve), the deepest node
    * it resolved, and the last component it read. */
  datatype ByOid = ByOid(slen: int, parent: NodeId, attr: nat)

  function Init(ns: seq<nat>): seq<nat>
    requires ns != []
  {
    ns[..|ns| - 1]
  }

  function Last(ns: seq<nat>): nat
    requires ns != []
  {
    ns[|ns| - 1]
  }

  /** The component at `off` is malformed, or it is a number `attr`, followed by
    * '.', that names no child of `parent`. */
  predicate FailsAt(t: Tree, s: string, off: nat, parent: NodeId, attr: nat)
    requires off <= |s|
  {
    var c := Component(s[off..]);
    c.None? || (c.value.0 == attr && off + c.value.1 < |s| && (parent, attr) !in t.children)
  }

  /** A failure at the first component. */
  lemma FailsAtStart(t: Tree, s: string, parent: NodeId, attr: nat)
    requires var c := Component(s);
             c.None? || (c.value.0 == attr && c.value.1 < |s| && (parent, attr) !in t.children)
    ensures FailsAt(t, s, 0, parent, attr)
  {
    assert s[0..] == s;
  }

  /** A failure found in the text after a resolved prefix is a failure at the
    * corresponding offset of the whole text. */
  lemma FailsAtShift(t: Tree, s: string, skip: nat, off: nat, parent: NodeId, attr: nat)
    requires skip <= |s| && off <= |s| - skip
    requires FailsAt(t, s[skip..], off, parent, attr)
    ensures FailsAt(t, s, skip + off, parent, attr)
  {
    assert s[skip + off..] == s[skip..][off..];
  }

  /** fr_dict_attr_by_oid, which is not part of this model's sources: every
    * component but the last must name a child of the node reached so far; the
    * last is only read. `attr` is the caller's variable, which a malformed
    * first component leaves as it was. */
  function AttrByOid(t: Tree, parent: NodeId, attr: nat, s: string): (r: ByOid)
    requires Valid(t) && parent in t.attrs
    ensures r.parent in t.attrs
    ensures r.slen > 0 ==> r.slen == |s|
    ensures r.slen <= 0 ==> -r.slen <= |s|
    decreases |s|
  {
    var c := Component(s);
    if c.None? then ByOid(0, parent, attr)
    else if c.value.1 == |s| then ByOid(|s|, parent, c.value.0)
    else if (parent, c.value.0) !in t.children then ByOid(0, parent, c.value.0)
    else
      var len := c.value.1;
      var rest := s[len + 1..];
      var r := AttrByOid(t, t.children[(parent, c.value.0)], c.value.0, rest);
      if r.slen <= 0 then ByOid(r.slen - (len + 1), r.parent, r.attr)
      else ByOid(r.slen + len + 1, r.parent, r.attr)
  }

  /** When fr_dict_attr_by_oid fails, minus its result is the offset of a
    * component that is malformed or names no child of the node it stopped at,
    * and `attr` holds that component's number (what :216 asserts). */
  lemma {:induction false} AttrByOidFails(t: Tree, parent: NodeId, attr: nat, s: string)
    requires Valid(t) && parent in t.attrs
    ensures var r := AttrByOid(t, parent, attr, s);
            r.slen <= 0 ==> FailsAt(t, s, -r.slen, r.parent, r.attr)
    decreases |s|
  {
    var c := Component(s);
    if c.None? {
      FailsAtStart(t, s, parent, attr);
    } else if c.value.1 < |s| {
      var num, len := c.value.0, c.value.1;
      if (parent, num) !in t.children {
        FailsAtStart(t, s, parent, num);
      } else {
        var rest := s[len + 1..];
        var r := AttrByOid(t, t.children[(parent, num)], num, rest);
        AttrByOidFails(t, t.children[(parent, num)], num, rest);
        if r.slen <= 0 {
          FailsAtShift(t, s, len + 1, -r.slen, r.parent, r.attr);
        }
      }
    }
  }

  /** fr_dict_attr_by_oid succeeds exactly when the text is a dotted number list
    * whose components but the last lead down the tree; it then stops at the
    * node reached and reports the last component. */
  lemma {:induction false} AttrByOidResolves(t: Tree, parent: NodeId, attr: nat, s: string)
    requires Valid(t) && parent in t.attrs
    ensures var r := AttrByOid(t, parent, attr, s);
            && (r.slen > 0 <==> ParseOid(s).Some? && Descend(t, parent, Init(ParseOid(s).value)).Some?)
            && (r.slen > 0 ==> r.attr == Last(ParseOid(s).value)
                               && Descend(t, parent, Init(ParseOid(s).value)) == Some(r.parent))
    decreases |s|
  {
    var c := Component(s);
    if c.Some? {
      var num, len := c.value.0, c.value.1;
      if len == |s| {
        assert ParseOid(s) == Some([num]);
        assert Init([num]) == [];
      } else {
        var rest := s[len + 1..];
        var ch := ChildByNum(t, parent, num);
        var p := ParseOid(rest);
        if p.Some? {
          var all := [num] + p.value;
          assert ParseOid(s) == Some(all);
          assert Init(all) == [num] + Init(p.value);
          assert Last(all) == Last(p.value);
          DescendCons(t, parent, num, Init(p.value));
        } else {
          assert ParseOid(s).None?;
        }
        if ch.Some? {
          AttrByOidResolves(t, ch.value, num, rest);
        }
      }
    }
  }

  /** The errors radsnmp_pair_from_oid sets (fr_strerror_printf). */
  datatype OidError =
    | NoError
    | BadComponent      // the unresolved text is not a number component
    | NoIndexAttr       // "Unknown OID component: No index attribute at this level"
    | IndexNotInteger   // "Index is not a "integer""
    | NoEntryAttr       // "Unknown OID component: No entry attribute at this level"
    | EntryNotTlv       // "Entry is not "tlv""
    | UnknownLeaf       // "Unknown leaf attribute %i"
    | LeafIsTlv         // "OID must specify a leaf, ... is a "tlv""
    | BadValue          // fr_pair_value_from_str failed

  /** The errors of the index loop, all of which end in fr_cursor_free. */
  predicate IsWalkError(e: OidError)
  {
    e.BadComponent? || e.NoIndexAttr? || e.IndexNotInteger? || e.NoEntryAttr? || e.EntryNotTlv?
  }

  /** An index pair: an `integer` attribute numbered 0 holding a table index. */
  predicate IsIndexPair(t: Tree, pr: Pair)
  {
    && pr.da in t.attrs && t.attrs[pr.da].num == 0 && t.attrs[pr.da].kind == Integer
    && pr.value.IntVal? && pr.value.n < UINT32
  }

  /** The state the index loop of radsnmp_pair_from_oid leaves: the last
    * fr_dict_attr_by_oid result, the position reached, `parent`, `attr`, the
    * index pairs inserted, and the error set. */
  datatype Walk = Walk(slen: int, p: nat, parent: NodeId, attr: nat, index: seq<Pair>, err: OidError)

  /** One pass of the `for (;;)` loop of radsnmp_pair_from_oid: it stops (on
    * success or on an error), or it steps over a table index. */
  datatype Step =
    | Stop(slen: int, p: nat, parent: NodeId, attr: nat, err: OidError)
    | Index(next: nat, entry: NodeId, attr: nat, pair: Pair)

  /** One pass of the loop at position `p` of the OID text: resolve as much as
    * possible; if a component does not resolve, it is a table index, which needs
    * an `integer` child 0 and a `tlv` child 1 of the node reached. */
  function WalkStep(t: Tree, s: string, p: nat, parent: NodeId, attr: nat): (st: Step)
    requires Valid(t) && p <= |s| && parent in t.attrs
    ensures st.Stop? ==> && st.parent in t.attrs && st.p <= |s|
                         && (st.slen > 0 <==> st.err.NoError?)
                         && (st.slen <= 0 <==> IsWalkError(st.err))
                         && (st.slen > 0 ==> st.slen == |s| - st.p)
    ensures st.Index? ==> && p < st.next <= |s| && st.entry in t.attrs
                          && t.attrs[st.entry].kind == Tlv && t.attrs[st.entry].num == 1
                          && IsIndexPair(t, st.pair) && st.pair.value.n == st.attr
  {
    var r := AttrByOid(t, parent, attr, s[p..]);
    if r.slen > 0 then Stop(r.slen, p, r.parent, r.attr, NoError)
    else
      var q := p - r.slen;
      StopComponent(t, s, p, parent, attr);
      var c := Component(s[q..]);
      if c.None? then Stop(r.slen, q, r.parent, r.attr, BadComponent)
      else IndexEntry(t, r.slen, q + c.value.1 + 1, r.parent, r.attr)
  }

  /** Where fr_dict_attr_by_oid stops inside the text, the component there, if
    * well formed, is the number it reported. */
  lemma StopComponent(t: Tree, s: string, p: nat, parent: NodeId, attr: nat)
    requires Valid(t) && p <= |s| && parent in t.attrs
    ensures var r := AttrByOid(t, parent, attr, s[p..]);
            r.slen <= 0 ==> && p - r.slen <= |s|
                            && var c := Component(s[p - r.slen..]);
                               c.Some? ==> c.value.0 == r.attr && p - r.slen + c.value.1 < |s|
  {
    var r := AttrByOid(t, parent, attr, s[p..]);
    if r.slen <= 0 {
      AttrByOidFails(t, parent, attr, s[p..]);
      assert s[p - r.slen..] == s[p..][-r.slen..];
    }
  }

  /** The rest of a pass that met a table index numbered `attr` under
    * `parent`, to resume at `next`: the index needs an `integer` child 0 and
    * the entry a `tlv` child 1. */
  function IndexEntry(t: Tree, slen: int, next: nat, parent: NodeId, attr: nat): (st: Step)
    requires Valid(t) && parent in t.attrs && slen <= 0 && attr < UINT32
    ensures st.Stop? ==> st == Stop(slen, next, parent, attr, st.err) && IsWalkError(st.err)
    ensures st.Index? ==> && st.next == next && st.entry in t.attrs
                          && t.attrs[st.entry].kind == Tlv && t.attrs[st.entry].num == 1
                          && IsIndexPair(t, st.pair) && st.pair.value.n == attr
  {
    var ix := ChildByNum(t, parent, 0);
    if ix.None? then Stop(slen, next, parent, attr, NoIndexAttr)
    else if t.attrs[ix.value].kind != Integer then Stop(slen, next, parent, attr, IndexNotInteger)
    else
      var e := ChildByNum(t, parent, 1);
      if e.None? then Stop(slen, next, parent, attr, NoEntryAttr)
      else if t.attrs[e.value].kind != Tlv then Stop(slen, next, parent, attr, EntryNotTlv)
      else Index(next, e.value, attr, Pair(ix.value, IntVal(attr)))
  }

  /** Which condition gives which outcome at a table index: no child 0 of
    * the node reached, a child 0 that is not an `integer`, no child 1, a
    * child 1 that is not a `tlv`, each stop the loop with their own error
    * and the unchanged (non-positive) result; when all four hold, the pass
    * steps into child 1 with an index pair for child 0 holding the index. */
  lemma IndexEntryErrors(t: Tree, slen: int, next: nat, parent: NodeId, attr: nat)
    requires Valid(t) && parent in t.attrs && slen <= 0 && attr < UINT32
    ensures var st := IndexEntry(t, slen, next, parent, attr);
            var ix := ChildByNum(t, parent, 0);
            var e := ChildByNum(t, parent, 1);
            && (st == Stop(slen, next, parent, attr, NoIndexAttr) <==> ix.None?)
            && (st == Stop(slen, next, parent, attr, IndexNotInteger) <==>
                  ix.Some? && t.attrs[ix.value].kind != Integer)
            && (st == Stop(slen, next, parent, attr, NoEntryAttr) <==>
                  ix.Some? && t.attrs[ix.value].kind == Integer && e.None?)
            && (st == Stop(slen, next, parent, attr, EntryNotTlv) <==>
                  ix.Some? && t.attrs[ix.value].kind == Integer && e.Some? && t.attrs[e.value].kind != Tlv)
            && (st.Index? <==>
                  ix.Some? && t.attrs[ix.value].kind == Integer && e.Some? && t.attrs[e.value].kind == Tlv)
            && (st.Index? ==> st == Index(next, e.value, attr, Pair(ix.value, IntVal(attr))))
  {
  }

  /** One pass of the loop, case by case: text that resolves to its end stops
    * with success at once; otherwise a malformed component where resolution
    * stopped gives BadComponent, and a well-formed one, which is the number
    * resolution reported, is taken as a table index to be stepped over. */
  lemma WalkStepCases(t: Tree, s: string, p: nat, parent: NodeId, attr: nat)
    requires Valid(t) && p <= |s| && parent in t.attrs
    ensures var r := AttrByOid(t, parent, attr, s[p..]);
            var st := WalkStep(t, s, p, parent, attr);
            && (r.slen > 0 ==> st == Stop(r.slen, p, r.parent, r.attr, NoError))
            && (r.slen <= 0 ==> p - r.slen <= |s|)
            && (st.Stop? && st.err.BadComponent? <==> r.slen <= 0 && Component(s[p - r.slen..]).None?)
            && (r.slen <= 0 && Component(s[p - r.slen..]).None? ==>
                  st == Stop(r.slen, p - r.slen, r.parent, r.attr, BadComponent))
            && (r.slen <= 0 && Component(s[p - r.slen..]).Some? ==>
                  && Component(s[p - r.slen..]).value.0 == r.attr
                  && st == IndexEntry(t, r.slen, p - r.slen + Component(s[p - r.slen..]).value.1 + 1, r.parent, r.attr))
  {
    StopComponent(t, s, p, parent, attr);
    var r := AttrByOid(t, parent, attr, s[p..]);
    if r.slen <= 0 && Component(s[p - r.slen..]).Some? {
      IndexEntryErrors(t, r.slen, p - r.slen + Component(s[p - r.slen..]).value.1 + 1, r.parent, r.attr);
    }
  }

  /** The whole loop from position `p`, with `acc` the index pairs inserted so far. */
  function IndexWalk(t: Tree, s: string, p: nat, parent: NodeId, attr: nat, acc: seq<Pair>): (w: Walk)
    requires Valid(t) && p <= |s| && parent in t.attrs
    ensures w.parent in t.attrs && w.p <= |s|
    ensures w.slen > 0 <==> w.err.NoError?
    ensures w.slen <= 0 <==> IsWalkError(w.err)
    ensures w.slen > 0 ==> w.slen == |s| - w.p
    ensures |acc| <= |w.index| && w.index[..|acc|] == acc
    ensures forall i :: |acc| <= i < |w.index| ==> IsIndexPair(t, w.index[i])
    decreases |s| - p
  {
    match WalkStep(t, s, p, parent, attr)
    case Stop(slen, q, parent', attr', err) => Walk(slen, q, parent', attr', acc, err)
    case Index(next, entry, attr', pair) =>
      var acc' := acc + [pair];
      var w := IndexWalk(t, s, next, entry, attr', acc');
      assert w.index[..|acc|] == acc'[..|acc|] == acc;
      assert w.index[|acc|] == w.index[..|acc'|][|acc|] == pair;
      w
  }

  /** What radsnmp_pair_from_oid leaves behind: its return value, the pair list
    * its cursor is over, and the error it set. */
  datatype OidResult = OidResult(slen: int, vps: seq<Pair>, err: OidError)

  /** One leading '.' is skipped. */
  function TrimDot(oid: string): (r: string)
    ensures oid != [] && oid[0] == '.' ==> r == oid[1..]
    ensures (oid == [] || oid[0] != '.') ==> r == oid
  {
    if |oid| > 0 && oid[0] == '.' then oid[1..] else oid
  }

  /** The node a final component names: `parent` itself for 0 (SNMP's ".0"),
    * otherwise the child of `parent` with that number. */
  function LeafOf(t: Tree, parent: NodeId, attr: nat): (r: Option<NodeId>)
    requires Valid(t) && parent in t.attrs
    ensures attr == 0 ==> r == Some(parent)
    ensures attr != 0 ==> r == ChildByNum(t, parent, attr)
    ensures r.Some? ==> r.value in t.attrs
  {
    if attr != 0 then ChildByNum(t, parent, attr) else Some(parent)
  }

  /** A leaf pair: a non-`tlv` attribute holding the parsed value, or the
    * placeholder when no value string was given. */
  predicate IsLeafPair(t: Tree, pr: Pair, value: Option<string>)
  {
    && pr.da in t.attrs && t.attrs[pr.da].kind != Tlv
    && WellTyped(t.attrs[pr.da].kind, pr.value)
    && (value.None? ==> pr.value == Placeholder(t.attrs[pr.da].kind))
    && (value.Some? ==> ParseValue(t.attrs[pr.da].kind, value.value) == Some(pr.value))
  }

  /** radsnmp_pair_from_oid on a cursor over `vps`, evaluating `oid` from `root`.
    * Freeing the cursor (fr_cursor_free) is taken to drop what this call added. */
  function FromOid(t: Tree, root: NodeId, oid: Option<string>, value: Option<string>, vps: seq<Pair>): (r: OidResult)
    requires Valid(t) && root in t.attrs
    ensures oid.None? ==> r == OidResult(0, vps, NoError)
    ensures oid.Some? ==> (r.slen > 0 <==> r.err.NoError? || r.err.BadValue?)
    ensures |vps| <= |r.vps| && r.vps[..|vps|] == vps
    ensures IsWalkError(r.err) || r.err.BadValue? ==> r.vps == vps
    ensures r.err.UnknownLeaf? || r.err.LeafIsTlv? ==>
              r.slen < 0 && forall i :: |vps| <= i < |r.vps| ==> IsIndexPair(t, r.vps[i])
    ensures oid.Some? && r.err.NoError? ==>
              && |r.vps| > |vps|
              && (forall i :: |vps| <= i < |r.vps| - 1 ==> IsIndexPair(t, r.vps[i]))
              && IsLeafPair(t, r.vps[|r.vps| - 1], value)
  {
    if oid.None? then OidResult(0, vps, NoError)
    else
      var w := IndexWalk(t, TrimDot(oid.value), 0, root, 0, []);
      if w.slen <= 0 then OidResult(w.slen, vps, w.err)
      else
        var da := LeafOf(t, w.parent, w.attr);
        if da.None? then OidResult(-w.slen, vps + w.index, UnknownLeaf)
        else
          var kind := t.attrs[da.value].kind;
          if kind == Tlv then OidResult(-w.slen, vps + w.index, LeafIsTlv)
          else if value.None? then
            OidResult(w.slen, vps + w.index + [Pair(da.value, Placeholder(kind))], NoError)
          else
            match ParseValue(kind, value.value)
            case None => OidResult(w.slen, vps, BadValue)
            case Some(v) => OidResult(w.slen, vps + w.index + [Pair(da.value, v)], NoError)
  }

  /** After the index loop: a loop error is returned as it is, with nothing
    * inserted. Once the loop has resolved the text, a final number that
    * names no node gives UnknownLeaf and one naming a `tlv` gives LeafIsTlv,
    * both returning minus the loop's result; a value that does not parse
    * gives BadValue; otherwise the index pairs and then a pair of the node
    * the final number names are inserted, and the loop's result returned. */
  lemma FromOidCases(t: Tree, root: NodeId, oid: string, value: Option<string>, vps: seq<Pair>)
    requires Valid(t) && root in t.attrs
    ensures var w := IndexWalk(t, TrimDot(oid), 0, root, 0, []);
            var r := FromOid(t, root, Some(oid), value, vps);
            && (w.slen <= 0 ==> r == OidResult(w.slen, vps, w.err))
            && (w.slen > 0 ==>
                  var da := LeafOf(t, w.parent, w.attr);
                  && (r.err.UnknownLeaf? <==> da.None?)
                  && (da.None? ==> r == OidResult(-w.slen, vps + w.index, UnknownLeaf))
                  && (r.err.LeafIsTlv? <==> da.Some? && t.attrs[da.value].kind == Tlv)
                  && (da.Some? && t.attrs[da.value].kind == Tlv ==> r == OidResult(-w.slen, vps + w.index, LeafIsTlv))
                  && (r.err.BadValue? <==>
                        da.Some? && t.attrs[da.value].kind != Tlv && value.Some?
                        && ParseValue(t.attrs[da.value].kind, value.value).None?)
                  && (r.err.BadValue? ==> r == OidResult(w.slen, vps, BadValue))
                  && (r.err.NoError? ==>
                        && da.Some? && r.slen == w.slen && |r.vps| == |vps| + |w.index| + 1
                        && r.vps[..|r.vps| - 1] == vps + w.index && r.vps[|r.vps| - 1].da == da.value))
  {
    var w := IndexWalk(t, TrimDot(oid), 0, root, 0, []);
    var r := FromOid(t, root, Some(oid), value, vps);
    if w.slen > 0 && r.err.NoError? {
      assert r.vps[..|r.vps| - 1] == vps + w.index;
    }
  }

  /** IndexWalk when the pass at `p` stops the loop. */
  lemma IndexWalkStop(t: Tree, s: string, p: nat, parent: NodeId, attr: nat, acc: seq<Pair>)
    requires Valid(t) && p <= |s| && parent in t.attrs
    requires WalkStep(t, s, p, parent, attr).Stop?
    ensures var st := WalkStep(t, s, p, parent, attr);
            IndexWalk(t, s, p, parent, attr, acc) == Walk(st.slen, st.p, st.parent, st.attr, acc, st.err)
  {
  }

  /** IndexWalk when the pass at `p` passes an index. */
  lemma IndexWalkIndex(t: Tree, s: string, p: nat, parent: NodeId, attr: nat, acc: seq<Pair>)
    requires Valid(t) && p <= |s| && parent in t.attrs
    requires WalkStep(t, s, p, parent, attr).Index?
    ensures var st := WalkStep(t, s, p, parent, attr);
            IndexWalk(t, s, p, parent, attr, acc) == IndexWalk(t, s, st.next, st.entry, st.attr, acc + [st.pair])
  {
  }

  /** One pass of the `for (;;)` loop of radsnmp_pair_from_oid (lines 208-258):
    * on a table index it inserts the index pair and moves on to the entry;
    * `done` says the loop breaks (resolved to the end, or an error). */
  method Pass(request: Request, t: Tree, s: string, p: nat, parent: NodeId, attr: nat)
    returns (done: bool, slen: int, p': nat, parent': NodeId, attr': nat, err: OidError)
    requires Valid(t) && p <= |s| && parent in t.attrs
    modifies request
    ensures var st := WalkStep(t, s, p, parent, attr);
            && done == st.Stop?
            && (done ==> slen == st.slen && parent' == st.parent && attr' == st.attr && err == st.err
                         && request.vps == old(request.vps))
            && (!done ==> p' == st.next && parent' == st.entry && attr' == st.attr
                          && request.vps == old(request.vps) + [st.pair])
    ensures !done ==> p < p' <= |s| && parent' in t.attrs
    ensures request.id == old(request.id) && request.code == old(request.code)
  {
    var r := AttrByOid(t, parent, attr, s[p..]);
    slen, p', parent', attr', err := r.slen, p, r.parent, r.attr, NoError;
    if slen > 0 {
      return true, slen, p', parent', attr', err;
    }
    AttrByOidFails(t, parent, attr, s[p..]);
    var q := p - slen;
    assert s[q..] == s[p..][-slen..];
    var c := Component(s[q..]);
    if c.None? {
      return true, slen, p', parent', attr', BadComponent;
    }
    var next := q + c.value.1 + 1;
    var ix := ChildByNum(t, r.parent, 0);
    if ix.None? {
      return true, slen, p', parent', attr', NoIndexAttr;
    }
    if t.attrs[ix.value].kind != Integer {
      return true, slen, p', parent', attr', IndexNotInteger;
    }
    var e := ChildByNum(t, r.parent, 1);
    if e.None? {
      return true, slen, p', parent', attr', NoEntryAttr;
    }
    if t.attrs[e.value].kind != Tlv {
      return true, slen, p', parent', attr', EntryNotTlv;
    }
    request.vps := request.vps + [Pair(ix.value, IntVal(r.attr))];
    return false, slen, next, e.value, r.attr, NoError;
  }

  /** The `for (;;)` loop of radsnmp_pair_from_oid, inserting each index pair
    * into the request's pair list as it goes. */
  method IndexLoop(request: Request, t: Tree, s: string, root: NodeId)
    returns (slen: int, parent: NodeId, attr: nat, err: OidError)
    requires Valid(t) && root in t.attrs
    modifies request
    ensures var w := IndexWalk(t, s, 0, root, 0, []);
            && w.slen == slen && w.parent == parent && w.attr == attr && w.err == err
            && request.vps == old(request.vps) + w.index
    ensures request.id == old(request.id) && request.code == old(request.code)
  {
    var p := 0;
    parent, attr := root, 0;
    ghost var w := IndexWalk(t, s, 0, root, 0, []);
    ghost var acc := [];
    ghost var vps0, id0, code0 := request.vps, request.id, request.code;
    while true
      invariant p <= |s| && parent in t.attrs
      invariant request.vps == vps0 + acc
      invariant IndexWalk(t, s, p, parent, attr, acc) == w
      invariant request.id == id0 && request.code == code0
      decreases |s| - p
    {
      var done, p', parent', attr';
      done, slen, p', parent', attr', err := Pass(request, t, s, p, parent, attr);
      if done {
        IndexWalkStop(t, s, p, parent, attr, acc);
        parent, attr := parent', attr';
        break;
      }
      IndexWalkIndex(t, s, p, parent, attr, acc);
      ghost var pair := WalkStep(t, s, p, parent, attr).pair;
      assert vps0 + acc + [pair] == vps0 + (acc + [pair]);
      acc := acc + [pair];
      p, parent, attr := p', parent', attr';
    }
  }

  /** radsnmp_pair_from_oid: evaluates `oid` from `root`, inserting the index
    * pairs it passes and then the leaf pair into the request's pair list in
    * place; returns what the source returns and the error it set. */
  method PairFromOid(request: Request, t: Tree, root: NodeId, oid: Option<string>, value: Option<string>)
    returns (slen: int, err: OidError)
    requires Valid(t) && root in t.attrs
    modifies request
    ensures FromOid(t, root, oid, value, old(request.vps)) == OidResult(slen, request.vps, err)
    ensures request.id == old(request.id) && request.code == old(request.code)
  {
    if oid.None? {
      return 0, NoError;
    }
    var start := |request.vps|;     // fr_cursor_end: insertions go after what is there
    var s := TrimDot(oid.value);
    var parent, attr;
    slen, parent, attr, err := IndexLoop(request, t, s, root);
    assert request.vps[..start] == old(request.vps);
    if slen <= 0 {
      request.vps := request.vps[..start];   // fr_cursor_free
      return slen, err;
    }
    var da := LeafOf(t, parent, attr);
    if da.None? {
      return -slen, UnknownLeaf;
    }
    var kind := t.attrs[da.value].kind;
    if kind == Tlv {
      return -slen, LeafIsTlv;
    }
    var v: Value;
    if value.None? {
      v := Placeholder(kind);
    } else {
      var parsed := ParseValue(kind, value.value);
      if parsed.None? {
        request.vps := request.vps[..start];   // goto error: fr_cursor_free, slen unchanged
        return slen, BadValue;
      }
      v := parsed.value;
    }
    request.vps := request.vps + [Pair(da.value, v)];
  }

  /** The OID printed for a leaf below `root` resolves in a single
    * fr_dict_attr_by_oid call, to the leaf's parent and number. */
  lemma PathWalk(t: Tree, root: NodeId, l: NodeId)
    requires Valid(t) && l in t.attrs && ParentCommon(t, root, l).Some?
    ensures var s := OidText(OidPath(t, root, l));
            && s != [] && IsDigit(s[0]) && TrimDot(s) == s
            && IndexWalk(t, s, 0, root, 0, []) == Walk(|s|, 0, t.attrs[l].parent, t.attrs[l].num, [], NoError)
  {
    var path := OidPath(t, root, l);
    var s := OidText(path);
    ParentFacts(t, l);
    AncestorDepth(t, root, l);
    var up := t.attrs[l].parent;
    assert Init(path) == OidPath(t, root, up);
    assert Last(path) == t.attrs[l].num;
    OidPathBounded(t, root, l);
    ParseOidText(path);
    DescendOidPath(t, root, up);
    AttrByOidResolves(t, root, 0, s);
    assert s[0..] == s;
    assert IsDigit(NatText(path[0])[0]);
  }

  /** Evaluating the OID printed for a non-`tlv` leaf below `root` inserts just
    * that leaf: with its placeholder when there is no value (get, getnext), and
    * with the value whose text is given (set). A leaf numbered 0 is not
    * reachable this way: a final ".0" names the parent instead. */
  lemma FromOidPath(t: Tree, root: NodeId, l: NodeId, v: Value, vps: seq<Pair>)
    requires Valid(t) && l in t.attrs && ParentCommon(t, root, l).Some?
    requires t.attrs[l].num != 0 && t.attrs[l].kind != Tlv
    requires WellTyped(t.attrs[l].kind, v)
    ensures var s := OidText(OidPath(t, root, l));
            var k := t.attrs[l].kind;
            && FromOid(t, root, Some(s), None, vps) == OidResult(|s|, vps + [Pair(l, Placeholder(k))], NoError)
            && FromOid(t, root, Some(s), Some(ValueText(k, v)), vps) == OidResult(|s|, vps + [Pair(l, v)], NoError)
  {
    PathWalk(t, root, l);
    ParentFacts(t, l);
    ParseValueText(t.attrs[l].kind, v);
    assert vps + [] == vps;
  }

  /** A final ".0" names the node reached itself (SNMP's scalar instance). */
  lemma FromOidScalar(t: Tree, root: NodeId, l: NodeId, vps: seq<Pair>)
    requires Valid(t) && l in t.attrs && ParentCommon(t, root, l).Some?
    requires t.attrs[l].kind != Tlv
    ensures var s := OidText(OidPath(t, root, l) + [0]);
            FromOid(t, root, Some(s), None, vps)
              == OidResult(|s|, vps + [Pair(l, Placeholder(t.attrs[l].kind))], NoError)
  {
    var path := OidPath(t, root, l);
    var full := path + [0];
    var s := OidText(full);
    ParentFacts(t, l);
    AncestorDepth(t, root, l);
    OidPathBounded(t, root, l);
    ParseOidText(full);
    DescendOidPath(t, root, l);
    assert Init(full) == path;
    AttrByOidResolves(t, root, 0, s);
    assert s[0..] == s;
    assert IsDigit(NatText(full[0])[0]);
    assert vps + [] == vps;
  }

  /** A result of fr_dict_attr_by_oid on text that starts `k` characters in. */
  function Shift(r: ByOid, k: nat): ByOid
  {
    if r.slen <= 0 then ByOid(r.slen - k, r.parent, r.attr) else ByOid(r.slen + k, r.parent, r.attr)
  }

  lemma ShiftShift(r: ByOid, j: nat, k: nat)
    ensures Shift(Shift(r, j), k) == Shift(r, j + k)
  {
  }

  /** One resolved component: fr_dict_attr_by_oid carries on below its child. */
  lemma AttrByOidNumber(t: Tree, p: NodeId, attr: nat, x: nat, tail: string)
    requires Valid(t) && p in t.attrs && x < UINT32 && (p, x) in t.children
    ensures t.children[(p, x)] in t.attrs
    ensures AttrByOid(t, p, attr, NatText(x) + "." + tail)
              == Shift(AttrByOid(t, t.children[(p, x)], x, tail), |NatText(x)| + 1)
  {
    var d := NatText(x);
    var s := d + "." + tail;
    assert s == d + ("." + tail);
    ComponentOfNumber(x, "." + tail);
    assert s[|d| + 1..] == tail;
  }

  /** A resolved component in front of text whose result is known, the
    * offsets counted back from the end of `rest`. */
  lemma AttrByOidCons(t: Tree, p: NodeId, attr: nat, x: nat, tail: string, rest: string, d: string, r: ByOid)
    requires Valid(t) && p in t.attrs && x < UINT32 && (p, x) in t.children
    requires d == NatText(x) + "." + tail && |tail| >= |rest|
    requires AttrByOid(t, t.children[(p, x)], x, tail) == Shift(r, |tail| - |rest|)
    ensures AttrByOid(t, p, attr, d) == Shift(r, |d| - |rest|)
  {
    AttrByOidNumber(t, p, attr, x, tail);
    ShiftShift(r, |tail| - |rest|, |NatText(x)| + 1);
  }

  /** fr_dict_attr_by_oid reads a prefix of components that leads down the tree
    * and carries on below the node it reaches, its offsets shifted by the
    * prefix's length. */
  lemma {:induction false} AttrByOidPrefix(t: Tree, p: NodeId, attr: nat, a: seq<nat>, rest: string)
    requires Valid(t) && p in t.attrs
    requires forall i :: 0 <= i < |a| ==> a[i] < UINT32
    requires Descend(t, p, a).Some?
    ensures Descend(t, p, a).value in t.attrs
    ensures AttrByOid(t, p, attr, Dotted(a, rest))
              == Shift(AttrByOid(t, Descend(t, p, a).value, if a == [] then attr else Last(a), rest),
                       |Dotted(a, rest)| - |rest|)
    decreases |a|
  {
    if a == [] {
      assert Dotted(a, rest) == rest;
    } else {
      var x := a[0];
      assert (p, x) in t.children && Descend(t, p, a) == Descend(t, t.children[(p, x)], a[1..]) by {
        DescendCons(t, p, x, a[1..]);
        assert [x] + a[1..] == a;
      }
      AttrByOidPrefix(t, t.children[(p, x)], x, a[1..], rest);
      PrefixCons(t, p, attr, a, rest);
    }
  }

  /** The inductive step of AttrByOidPrefix: its first component, then the rest. */
  lemma PrefixCons(t: Tree, p: NodeId, attr: nat, a: seq<nat>, rest: string)
    requires Valid(t) && p in t.attrs && a != [] && a[0] < UINT32 && (p, a[0]) in t.children
    requires Descend(t, p, a) == Descend(t, t.children[(p, a[0])], a[1..]) && Descend(t, p, a).Some?
    requires Descend(t, p, a).value in t.attrs
    requires AttrByOid(t, t.children[(p, a[0])], a[0], Dotted(a[1..], rest))
               == Shift(AttrByOid(t, Descend(t, p, a).value, if a[1..] == [] then a[0] else Last(a[1..]), rest),
                        |Dotted(a[1..], rest)| - |rest|)
    ensures AttrByOid(t, p, attr, Dotted(a, rest))
              == Shift(AttrByOid(t, Descend(t, p, a).value, Last(a), rest), |Dotted(a, rest)| - |rest|)
  {
    assert (if a[1..] == [] then a[0] else Last(a[1..])) == Last(a);
    AttrByOidCons(t, p, attr, a[0], Dotted(a[1..], rest), rest, Dotted(a, rest),
                  AttrByOid(t, Descend(t, p, a).value, Last(a), rest));
  }

  /** A number that names no child of `p`, followed by more text, stops
    * fr_dict_attr_by_oid at once. */
  lemma AttrByOidUnknown(t: Tree, p: NodeId, attr: nat, i: nat, rest: string)
    requires Valid(t) && p in t.attrs && i < UINT32 && (p, i) !in t.children
    ensures AttrByOid(t, p, attr, NatText(i) + "." + rest) == ByOid(0, p, i)
  {
    var s := NatText(i) + "." + rest;
    assert s == NatText(i) + ("." + rest);
    ComponentOfNumber(i, "." + rest);
  }

  /** A pass that meets an index under a table node with the required children. */
  lemma WalkStepIndex(t: Tree, s: string, p: nat, parent: NodeId, attr: nat, q: nat,
                      tbl: NodeId, i: nat, ix: NodeId, entry: NodeId, rest: string)
    requires Valid(t) && p <= q <= |s| && parent in t.attrs && tbl in t.attrs
    requires AttrByOid(t, parent, attr, s[p..]) == ByOid(p - q, tbl, i)
    requires i < UINT32 && s[q..] == NatText(i) + "." + rest
    requires ChildByNum(t, tbl, 0) == Some(ix) && t.attrs[ix].kind == Integer
    requires ChildByNum(t, tbl, 1) == Some(entry) && t.attrs[entry].kind == Tlv
    ensures WalkStep(t, s, p, parent, attr) == Index(q + |NatText(i)| + 1, entry, i, Pair(ix, IntVal(i)))
  {
    assert s[q..] == NatText(i) + ("." + rest);
    ComponentOfNumber(i, "." + rest);
    assert s[q..] == s[p..][q - p..];
  }

  /** A pass over a single number resolves it. */
  lemma WalkStepLast(t: Tree, s: string, p: nat, parent: NodeId, attr: nat, n: nat)
    requires Valid(t) && p <= |s| && parent in t.attrs && n < UINT32
    requires s[p..] == NatText(n)
    ensures WalkStep(t, s, p, parent, attr) == Stop(|NatText(n)|, p, parent, n, NoError)
  {
    ComponentOfNumber(n, []);
    assert NatText(n) + [] == NatText(n);
  }

  /** "<path to table>.<index>.<rest>" stops fr_dict_attr_by_oid at the index. */
  lemma TableTextStops(t: Tree, root: NodeId, tbl: NodeId, i: nat, rest: seq<nat>)
    requires Valid(t) && tbl in t.attrs && ParentCommon(t, root, tbl).Some?
    requires i < UINT32 && ChildByNum(t, tbl, i).None? && rest != []
    ensures var path := OidPath(t, root, tbl);
            var s := OidText(path + [i] + rest);
            var k := |s| - |OidText([i] + rest)|;
            && 0 <= k && s[k..] == OidText([i] + rest)
            && s != [] && IsDigit(s[0])
            && AttrByOid(t, root, 0, s[0..]) == ByOid(-k, tbl, i)
  {
    var path := OidPath(t, root, tbl);
    var tailText := OidText([i] + rest);
    var s := OidText(path + [i] + rest);
    assert s == Dotted(path, tailText) && tailText == NatText(i) + "." + OidText(rest) by {
      assert path + [i] + rest == path + ([i] + rest);
      OidTextDotted(path, [i] + rest);
      assert ([i] + rest)[1..] == rest;
    }
    DottedSuffix(path, tailText);
    assert s[0..] == s;
    AncestorDepth(t, root, tbl);
    OidPathBounded(t, root, tbl);
    DescendOidPath(t, root, tbl);
    AttrByOidPrefix(t, root, 0, path, tailText);
    AttrByOidUnknown(t, tbl, Last(path), i, OidText(rest));
    assert IsDigit(NatText((path + [i] + rest)[0])[0]);
  }

  /** Two passes: an index, then the end of the text. */
  lemma IndexWalkTwo(t: Tree, s: string, p: nat, parent: NodeId, attr: nat, acc: seq<Pair>,
                     next: nat, entry: NodeId, i: nat, pair: Pair, st: Step)
    requires Valid(t) && p <= |s| && parent in t.attrs
    requires WalkStep(t, s, p, parent, attr) == Index(next, entry, i, pair)
    requires next <= |s| && entry in t.attrs && WalkStep(t, s, next, entry, i) == st && st.Stop?
    ensures IndexWalk(t, s, p, parent, attr, acc) == Walk(st.slen, st.p, st.parent, st.attr, acc + [pair], st.err)
  {
    IndexWalkIndex(t, s, p, parent, attr, acc);
    IndexWalkStop(t, s, next, entry, i, acc + [pair]);
  }

  /** What follows "<a>." at offset `k`. */
  lemma DotAfter(s: string, k: nat, a: string, b: string)
    requires k <= |s| && s[k..] == a + "." + b
    ensures k + |a| + 1 <= |s| && s[k + |a| + 1..] == b
  {
    assert s[k + |a| + 1..] == s[k..][|a| + 1..];
  }

  /** The index loop over text that stops at an index `k` characters in and
    * ends with one more number. */
  lemma IndexWalkTable(t: Tree, s: string, k: nat, root: NodeId, tbl: NodeId, ix: NodeId, entry: NodeId,
                       i: nat, n: nat)
    requires Valid(t) && root in t.attrs && tbl in t.attrs && k <= |s|
    requires ChildByNum(t, tbl, 0) == Some(ix) && t.attrs[ix].kind == Integer
    requires ChildByNum(t, tbl, 1) == Some(entry) && t.attrs[entry].kind == Tlv
    requires i < UINT32 && n < UINT32
    requires AttrByOid(t, root, 0, s[0..]) == ByOid(-(k as int), tbl, i)
    requires s[k..] == NatText(i) + "." + NatText(n)
    ensures |NatText(n)| <= |s|
    ensures IndexWalk(t, s, 0, root, 0, [])
              == Walk(|NatText(n)|, |s| - |NatText(n)|, entry, n, [Pair(ix, IntVal(i))], NoError)
  {
    var next := k + |NatText(i)| + 1;
    WalkStepIndex(t, s, 0, root, 0, k, tbl, i, ix, entry, NatText(n));
    DotAfter(s, k, NatText(i), NatText(n));
    WalkStepLast(t, s, next, entry, i, n);
    IndexWalkTwo(t, s, 0, root, 0, [], next, entry, i, Pair(ix, IntVal(i)),
                 Stop(|NatText(n)|, next, entry, n, NoError));
    assert [] + [Pair(ix, IntVal(i))] == [Pair(ix, IntVal(i))];
  }

  /** The index loop over "<path to table>.<index>.<leaf number>". */
  lemma IndexedWalk(t: Tree, root: NodeId, tbl: NodeId, ix: NodeId, entry: NodeId, i: nat, n: nat)
    requires Valid(t) && tbl in t.attrs && ParentCommon(t, root, tbl).Some?
    requires ChildByNum(t, tbl, 0) == Some(ix) && t.attrs[ix].kind == Integer
    requires ChildByNum(t, tbl, 1) == Some(entry) && t.attrs[entry].kind == Tlv
    requires i < UINT32 && ChildByNum(t, tbl, i).None? && n < UINT32
    ensures var s := OidText(OidPath(t, root, tbl) + [i, n]);
            && s != [] && IsDigit(s[0]) && |NatText(n)| <= |s|
            && IndexWalk(t, s, 0, root, 0, [])
                 == Walk(|NatText(n)|, |s| - |NatText(n)|, entry, n, [Pair(ix, IntVal(i))], NoError)
  {
    var path := OidPath(t, root, tbl);
    var s := OidText(path + [i, n]);
    TableTextStops(t, root, tbl, i, [n]);
    assert path + [i] + [n] == path + [i, n] && [i] + [n] == [i, n];
    AncestorDepth(t, root, tbl);
    IndexWalkTable(t, s, |s| - |OidText([i, n])|, root, tbl, ix, entry, i, n);
  }

  /** SNMP's table convention: below a table node whose child 0 is an `integer`
    * index attribute and whose child 1 is a `tlv` entry, a number that names no
    * child of the table is an index. Evaluating "<path to table>.<index>.<leaf>"
    * inserts an index pair holding that number and then the leaf of the entry,
    * with its placeholder or with a value given as its printed text; the
    * length returned is that of the text after the index. */
  lemma FromOidIndexed(t: Tree, root: NodeId, tbl: NodeId, ix: NodeId, entry: NodeId, l: NodeId,
                       i: nat, v: Value, vps: seq<Pair>)
    requires Valid(t) && tbl in t.attrs && ParentCommon(t, root, tbl).Some?
    requires ChildByNum(t, tbl, 0) == Some(ix) && t.attrs[ix].kind == Integer
    requires ChildByNum(t, tbl, 1) == Some(entry) && t.attrs[entry].kind == Tlv
    requires l in t.attrs && t.attrs[l].parent == entry && t.attrs[l].depth > 0
    requires t.attrs[l].num != 0 && t.attrs[l].kind != Tlv && WellTyped(t.attrs[l].kind, v)
    requires i < UINT32 && ChildByNum(t, tbl, i).None?
    ensures var n := t.attrs[l].num;
            var k := t.attrs[l].kind;
            var s := OidText(OidPath(t, root, tbl) + [i, n]);
            && FromOid(t, root, Some(s), None, vps)
                 == OidResult(|NatText(n)|, vps + [Pair(ix, IntVal(i)), Pair(l, Placeholder(k))], NoError)
            && FromOid(t, root, Some(s), Some(ValueText(k, v)), vps)
                 == OidResult(|NatText(n)|, vps + [Pair(ix, IntVal(i)), Pair(l, v)], NoError)
  {
    ParentFacts(t, l);
    IndexedWalk(t, root, tbl, ix, entry, i, t.attrs[l].num);
    ParseValueText(t.attrs[l].kind, v);
    assert vps + [Pair(ix, IntVal(i))] + [Pair(l, Placeholder(t.attrs[l].kind))]
        == vps + [Pair(ix, IntVal(i)), Pair(l, Placeholder(t.attrs[l].kind))];
    assert vps + [Pair(ix, IntVal(i))] + [Pair(l, v)] == vps + [Pair(ix, IntVal(i)), Pair(l, v)];
  }

  /** "<path to table>.<index>.1.<column>", where the entry has no child 1
    * and no index attribute of its own: the index is taken, the entry is
    * entered, and the "1" after the index is then read as a second index
    * below the entry, which has none. Nothing is inserted and 0 is
    * returned. */
  lemma IndexedOidMisread(t: Tree, root: NodeId, tbl: NodeId, ix: NodeId, entry: NodeId,
                          i: nat, n: nat, value: Option<string>, vps: seq<Pair>)
    requires Valid(t) && root in t.attrs && tbl in t.attrs && ParentCommon(t, root, tbl).Some?
    requires ChildByNum(t, tbl, 0) == Some(ix) && t.attrs[ix].kind == Integer
    requires ChildByNum(t, tbl, 1) == Some(entry) && t.attrs[entry].kind == Tlv
    requires ChildByNum(t, entry, 0).None? && ChildByNum(t, entry, 1).None?
    requires i < UINT32 && ChildByNum(t, tbl, i).None? && n < UINT32
    ensures FromOid(t, root, Some(OidText(OidPath(t, root, tbl) + [i, 1, n])), value, vps)
            == OidResult(0, vps, NoIndexAttr)
  {
    var s := OidText(OidPath(t, root, tbl) + [i, 1, n]);
    var q := MisreadWalk(t, root, tbl, ix, entry, i, n);
    assert TrimDot(s) == s;
  }

  /** The index loop over "<path to table>.<index>.1.<column>" in that
    * case. */
  lemma MisreadWalk(t: Tree, root: NodeId, tbl: NodeId, ix: NodeId, entry: NodeId, i: nat, n: nat)
    returns (q: nat)
    requires Valid(t) && root in t.attrs && tbl in t.attrs && ParentCommon(t, root, tbl).Some?
    requires ChildByNum(t, tbl, 0) == Some(ix) && t.attrs[ix].kind == Integer
    requires ChildByNum(t, tbl, 1) == Some(entry) && t.attrs[entry].kind == Tlv
    requires ChildByNum(t, entry, 0).None? && ChildByNum(t, entry, 1).None?
    requires i < UINT32 && ChildByNum(t, tbl, i).None? && n < UINT32
    ensures var s := OidText(OidPath(t, root, tbl) + [i, 1, n]);
            && s != [] && IsDigit(s[0]) && q <= |s|
            && IndexWalk(t, s, 0, root, 0, []) == Walk(0, q, entry, 1, [Pair(ix, IntVal(i))], NoIndexAttr)
  {
    var s := OidText(OidPath(t, root, tbl) + [i, 1, n]);
    var next := IndexPass(t, root, tbl, ix, entry, i, [1, n]);
    assert OidPath(t, root, tbl) + [i] + [1, n] == OidPath(t, root, tbl) + [i, 1, n];
    MisreadStep(t, s, next, entry, i, n);
    q := next + |NatText(1)| + 1;
    IndexWalkIndex(t, s, 0, root, 0, []);
    IndexWalkStop(t, s, next, entry, i, [] + [Pair(ix, IntVal(i))]);
    assert [] + [Pair(ix, IntVal(i))] == [Pair(ix, IntVal(i))];
  }

  /** The first pass over "<path to table>.<index>.<rest>" steps over the
    * index into the entry. */
  lemma IndexPass(t: Tree, root: NodeId, tbl: NodeId, ix: NodeId, entry: NodeId, i: nat, rest: seq<nat>)
    returns (next: nat)
    requires Valid(t) && root in t.attrs && tbl in t.attrs && ParentCommon(t, root, tbl).Some?
    requires ChildByNum(t, tbl, 0) == Some(ix) && t.attrs[ix].kind == Integer
    requires ChildByNum(t, tbl, 1) == Some(entry) && t.attrs[entry].kind == Tlv
    requires i < UINT32 && ChildByNum(t, tbl, i).None? && rest != []
    ensures var s := OidText(OidPath(t, root, tbl) + [i] + rest);
            && s != [] && IsDigit(s[0]) && next <= |s| && s[next..] == OidText(rest)
            && WalkStep(t, s, 0, root, 0) == Index(next, entry, i, Pair(ix, IntVal(i)))
  {
    var s := OidText(OidPath(t, root, tbl) + [i] + rest);
    var tail := OidText(rest);
    TableTextStops(t, root, tbl, i, rest);
    var k := |s| - |OidText([i] + rest)|;
    assert s[k..] == NatText(i) + "." + tail by {
      assert ([i] + rest)[1..] == rest;
    }
    assert AttrByOid(t, root, 0, s[0..]) == ByOid(0 - k, tbl, i);
    WalkStepIndex(t, s, 0, root, 0, k, tbl, i, ix, entry, tail);
    next := k + |NatText(i)| + 1;
    DotAfter(s, k, NatText(i), tail);
  }

  /** The pass over "1.<column>" below an entry with neither a child 1 nor an
    * index attribute stops with no index attribute. */
  lemma MisreadStep(t: Tree, s: string, next: nat, entry: NodeId, i: nat, n: nat)
    requires Valid(t) && entry in t.attrs && next <= |s| && n < UINT32
    requires ChildByNum(t, entry, 0).None? && ChildByNum(t, entry, 1).None?
    requires s[next..] == OidText([1, n])
    ensures WalkStep(t, s, next, entry, i) == Stop(0, next + |NatText(1)| + 1, entry, 1, NoIndexAttr)
  {
    var rest := NatText(n);
    assert OidText([1, n]) == NatText(1) + "." + rest by {
      assert [1, n][1..] == [n];
    }
    assert (entry, 1) !in t.children;
    AttrByOidUnknown(t, entry, i, 1, rest);
    ComponentOfNumber(1, "." + rest);
    assert NatText(1) + "." + rest == NatText(1) + ("." + rest);
    assert s[next..][0..] == s[next..];
  }

  /** radsnmp_pair_from_oid as evidently intended: a value that does not parse
    * is reported as a failure (minus the length reached), like every other
    * error, rather than with the positive length the `goto error` returns. */
  function FromOidFixed(t: Tree, root: NodeId, oid: Option<string>, value: Option<string>, vps: seq<Pair>): (r: OidResult)
    requires Valid(t) && root in t.attrs
    ensures oid.Some? ==> (r.slen > 0 <==> r.err.NoError?)
    ensures oid.Some? && !r.err.NoError? ==> r.slen <= 0
    ensures r.err.NoError? ==> r == FromOid(t, root, oid, value, vps)
    ensures r.err.BadValue? ==> r.vps == vps && r.slen == -FromOid(t, root, oid, value, vps).slen
  {
    var r := FromOid(t, root, oid, value, vps);
    if r.err.BadValue? then OidResult(-r.slen, r.vps, r.err) else r
  }

  /** A dictionary with one top-level `tlv` node 0 and its `integer` child 1. */
  function SmallTree(): (t: Tree)
    ensures Valid(t) && 0 in t.attrs && 1 in t.attrs
  {
    var t := Tree(map[0 := Attr(1, Tlv, 0, 0), 1 := Attr(1, Integer, 0, 1)], map[(0, 1) := 1]);
    assert ParentOk(t, 0) && ParentOk(t, 1);
    t
  }

  /** As written, a set whose value does not parse ("x" for an `integer`) ends
    * with nothing inserted and the error set, yet returns a positive length,
    * which callers take for success. */
  lemma BadValueReportsSuccess()
    ensures FromOid(SmallTree(), 0, Some("1"), Some("x"), []) == OidResult(1, [], BadValue)
    ensures FromOidFixed(SmallTree(), 0, Some("1"), Some("x"), []) == OidResult(-1, [], BadValue)
  {
    var t := SmallTree();
    assert IsAncestorOrSelf(t, 0, 1);
    assert OidPath(t, 0, 1) == [1];
    assert NatText(1) == "1";
    PathWalk(t, 0, 1);
    ParentFacts(t, 1);
    assert !IsDigit("x"[0]);
  }
}

/** How radsnmp_get_response and radsnmp_pair_from_oid fit together: the OID
  * and value lines of a varbind written for a leaf name that same leaf and
  * value again when net-snmp passes them back in a set. For a leaf of a
  * table entry this holds only as evidently intended: as written the OID
  * printed after an index does not parse back. */
module RoundTrip {
  import opened Wrappers
  import opened Text
  import opened Dict
  import opened Pairs
  import opened OidParse
  import opened Response

  /** A reply of a type pair and one leaf beneath the root is written as one
    * varbind, and its OID and value lines, given back to
    * radsnmp_pair_from_oid, add exactly that leaf with that value. Octets are
    * left out: they are written raw but read back as hex when they begin
    * with "0x". */
  lemma VarbindReadsBack(t: Tree, root: NodeId, typeDa: NodeId, fixed: bool, tv: Value, pr: Pair, vps: seq<Pair>)
    requires Valid(t) && root in t.attrs && TypeFits(t, typeDa, tv) && LeafFits(t, root, typeDa, pr)
    requires t.attrs[pr.da].kind != Octets && t.attrs[pr.da].kind != Tlv
    ensures var s := OidText(OidPath(t, root, pr.da));
            var value := LeafValue(t.attrs[pr.da].kind, pr.value).value;
            && GetResult(t, root, typeDa, fixed, [Pair(typeDa, tv), pr]) ==
               Written(1, [Varbind(s, ValueText(t.attrs[typeDa].kind, tv), value)])
            && FromOid(t, root, Some(s), Some(value), vps) == OidResult(|s|, vps + [pr], NoError)
  {
    SingleLeaf(t, root, typeDa, fixed, tv, pr);
    FromOidPath(t, root, pr.da, pr.value, vps);
  }

  /** A table beneath the root: its child 0 is an `integer` index attribute,
    * its child 1 a `tlv` entry, and `l` a leaf of that entry. */
  predicate TableLeaf(t: Tree, root: NodeId, tbl: NodeId, ix: NodeId, entry: NodeId, l: NodeId)
    requires Valid(t)
  {
    && tbl in t.attrs && ParentCommon(t, root, tbl).Some?
    && ChildByNum(t, tbl, 0) == Some(ix) && t.attrs[ix].kind == Integer
    && ChildByNum(t, tbl, 1) == Some(entry) && t.attrs[entry].kind == Tlv
    && l in t.attrs && t.attrs[l].parent == entry && t.attrs[l].depth > 0
    && t.attrs[l].num != 0 && t.attrs[l].kind != Tlv && t.attrs[l].kind != Octets
  }

  /** The facts about such a table that the printing side needs. */
  lemma TableLeafFacts(t: Tree, root: NodeId, typeDa: NodeId, tbl: NodeId, ix: NodeId, entry: NodeId,
                       i: nat, pr: Pair)
    requires Valid(t) && root in t.attrs && TableLeaf(t, root, tbl, ix, entry, pr.da)
    requires ix != typeDa && pr.da != typeDa && WellTyped(t.attrs[pr.da].kind, pr.value) && i < UINT32
    ensures t.attrs[ix].parent == tbl && EntryOf(t, tbl) == Some(entry)
    ensures IsIndexAttr(t, root, typeDa, Pair(ix, IntVal(i)))
    ensures IsDecoded(t, pr) && IsLeaf(t, root, typeDa, pr)
    ensures ParentCommon(t, entry, pr.da).Some? && ParentCommon(t, tbl, pr.da).Some?
    ensures OidPath(t, entry, pr.da) == [t.attrs[pr.da].num]
    ensures OidPath(t, tbl, pr.da) == [1, t.attrs[pr.da].num] && t.attrs[pr.da].num < UINT32
  {
    var l := pr.da;
    ParentFacts(t, l);
    ParentFacts(t, entry);
    ParentFacts(t, ix);
    assert IsAncestorOrSelf(t, entry, l);
    assert IsAncestorOrSelf(t, tbl, entry) && IsAncestorOrSelf(t, tbl, ix);
    AncestorTrans(t, tbl, entry, l);
    AncestorTrans(t, root, tbl, ix);
    AncestorTrans(t, root, tbl, l);
    AncestorDepth(t, root, tbl);
    AncestorDepth(t, tbl, l);
    assert OidPath(t, entry, entry) == [];
    assert OidPath(t, tbl, tbl) == [];
  }

  /** As evidently intended, with the cursor at the entry after an index:
    * the varbind written for a leaf of a table entry, met after its index
    * pair, has the OID "<path to table>.<index>.<leaf number>", and that OID
    * and value, given back to radsnmp_pair_from_oid, insert the same index
    * pair and the same leaf with the same value. Indexes from 2^31 up
    * print negative, and an index that is also the number of a child of
    * the table names that child instead, so neither reads back. */
  lemma IndexedVarbindReadsBack(t: Tree, root: NodeId, typeDa: NodeId, tv: Value, tbl: NodeId, ix: NodeId,
                                entry: NodeId, i: nat, pr: Pair, vps: seq<Pair>)
    requires Valid(t) && root in t.attrs && TypeFits(t, typeDa, tv) && TableLeaf(t, root, tbl, ix, entry, pr.da)
    requires ix != typeDa && pr.da != typeDa
    requires WellTyped(t.attrs[pr.da].kind, pr.value) && LeafValue(t.attrs[pr.da].kind, pr.value).Some?
    requires i < INT32 && ChildByNum(t, tbl, i).None?
    requires |OidText(OidPath(t, root, tbl) + [i, t.attrs[pr.da].num])| < OID_BUFF
    ensures var s := OidText(OidPath(t, root, tbl) + [i, t.attrs[pr.da].num]);
            var value := LeafValue(t.attrs[pr.da].kind, pr.value).value;
            && GetResult(t, root, typeDa, true, [Pair(typeDa, tv), Pair(ix, IntVal(i)), pr]) ==
               Written(1, [Varbind(s, ValueText(t.attrs[typeDa].kind, tv), value)])
            && FromOid(t, root, Some(s), Some(value), vps) ==
               OidResult(|NatText(t.attrs[pr.da].num)|, vps + [Pair(ix, IntVal(i)), pr], NoError)
  {
    var n := t.attrs[pr.da].num;
    TableLeafFacts(t, root, typeDa, tbl, ix, entry, i, pr);
    assert OidPath(t, root, tbl) + [i] + [n] == OidPath(t, root, tbl) + [i, n];
    IndexedLeaf(t, root, typeDa, true, tv, tbl, Pair(ix, IntVal(i)), entry, pr);
    FromOidIndexed(t, root, tbl, ix, entry, pr.da, i, pr.value, vps);
  }

  /** As written, with the cursor left at the table after an index: the same
    * leaf is written as "<path to table>.<index>.1.<leaf number>", the
    * entry's number following the index. Where the entry has no child 1
    * and no index attribute of its own, radsnmp_pair_from_oid reads that
    * "1" as a second index, fails, returns 0 and inserts nothing, so a set
    * of the OID just read is answered "NONE". */
  lemma IndexedVarbindMisread(t: Tree, root: NodeId, typeDa: NodeId, tv: Value, tbl: NodeId, ix: NodeId,
                              entry: NodeId, i: nat, pr: Pair, vps: seq<Pair>)
    requires Valid(t) && root in t.attrs && TypeFits(t, typeDa, tv) && TableLeaf(t, root, tbl, ix, entry, pr.da)
    requires ix != typeDa && pr.da != typeDa
    requires WellTyped(t.attrs[pr.da].kind, pr.value) && LeafValue(t.attrs[pr.da].kind, pr.value).Some?
    requires ChildByNum(t, entry, 0).None? && ChildByNum(t, entry, 1).None?
    requires i < INT32 && ChildByNum(t, tbl, i).None?
    requires |OidText(OidPath(t, root, tbl) + [i, 1, t.attrs[pr.da].num])| < OID_BUFF
    ensures var s := OidText(OidPath(t, root, tbl) + [i, 1, t.attrs[pr.da].num]);
            var value := LeafValue(t.attrs[pr.da].kind, pr.value).value;
            && GetResult(t, root, typeDa, false, [Pair(typeDa, tv), Pair(ix, IntVal(i)), pr]) ==
               Written(1, [Varbind(s, ValueText(t.attrs[typeDa].kind, tv), value)])
            && FromOid(t, root, Some(s), Some(value), vps) == OidResult(0, vps, NoIndexAttr)
  {
    var n := t.attrs[pr.da].num;
    TableLeafFacts(t, root, typeDa, tbl, ix, entry, i, pr);
    assert OidPath(t, root, tbl) + [i] + [1, n] == OidPath(t, root, tbl) + [i, 1, n];
    IndexedLeaf(t, root, typeDa, false, tv, tbl, Pair(ix, IntVal(i)), tbl, pr);
    IndexedOidMisread(t, root, tbl, ix, entry, i, n, Some(LeafValue(t.attrs[pr.da].kind, pr.value).value), vps);
  }

  /** A dictionary with one table: root 0 (number 1), table 1 = 1.1, its
    * index attribute 2 = 1.1.0 and entry 3 = 1.1.1, the entry's `integer`
    * column 4 = 1.1.1.2, and a top-level `string` attribute 5 that carries
    * the type. */
  function TableTree(): (t: Tree)
    ensures Valid(t) && forall n :: 0 <= n <= 5 ==> n in t.attrs
  {
    var t := Tree(map[0 := Attr(1, Tlv, 0, 0), 1 := Attr(1, Tlv, 0, 1), 2 := Attr(0, Integer, 1, 2),
                      3 := Attr(1, Tlv, 1, 2), 4 := Attr(2, Integer, 3, 3), 5 := Attr(2, String, 5, 0)],
                  map[(0, 1) := 1, (1, 0) := 2, (1, 1) := 3, (3, 2) := 4]);
    assert ParentOk(t, 0) && ParentOk(t, 1) && ParentOk(t, 2) && ParentOk(t, 3) && ParentOk(t, 4) && ParentOk(t, 5);
    t
  }

  /** The text facts about TableTree that IndexedExample needs. */
  lemma TableTreeText()
    ensures ChildByNum(TableTree(), 1, 0) == Some(2) && ChildByNum(TableTree(), 1, 1) == Some(3)
    ensures ChildByNum(TableTree(), 3, 0).None? && ChildByNum(TableTree(), 3, 1).None?
    ensures ChildByNum(TableTree(), 1, 5).None?
    ensures OidPath(TableTree(), 0, 1) == [1] && ParentCommon(TableTree(), 0, 1).Some?
    ensures ValueText(String, Bytes("INTEGER")) == "INTEGER" && ValueText(Integer, IntVal(7)) == "7"
  {
    var t := TableTree();
    assert IsAncestorOrSelf(t, 0, 1);
    assert NatText(7) == "7";
  }

  /** The two OIDs of IndexedExample, as text. */
  lemma TableOidText()
    ensures OidText([1] + [5, 1, 2]) == "1.5.1.2" && OidText([1] + [5, 2]) == "1.5.2"
  {
    assert NatText(1) == "1" && NatText(2) == "2" && NatText(5) == "5";
    assert [1] + [5, 1, 2] == [1, 5, 1, 2] && [1] + [5, 2] == [1, 5, 2];
    assert [1, 5, 1, 2][1..] == [5, 1, 2] && [5, 1, 2][1..] == [1, 2] && [1, 2][1..] == [2];
    assert [1, 5, 2][1..] == [5, 2] && [5, 2][1..] == [2];
    assert OidText([2]) == "2";
    assert OidText([1, 2]) == "1.2";
    assert OidText([5, 1, 2]) == "5.1.2";
    assert OidText([5, 2]) == "5.2";
  }

  /** On TableTree, a reply with type "INTEGER", index 5 and column value 7:
    * as written the varbind's OID is "1.5.1.2", which does not parse back;
    * as intended it is "1.5.2", which inserts index 5 and the column with
    * value 7 again. */
  lemma IndexedExample()
    ensures GetResult(TableTree(), 0, 5, false, [Pair(5, Bytes("INTEGER")), Pair(2, IntVal(5)), Pair(4, IntVal(7))])
            == Written(1, [Varbind("1.5.1.2", "INTEGER", "7")])
    ensures FromOid(TableTree(), 0, Some("1.5.1.2"), Some("7"), []) == OidResult(0, [], NoIndexAttr)
    ensures GetResult(TableTree(), 0, 5, true, [Pair(5, Bytes("INTEGER")), Pair(2, IntVal(5)), Pair(4, IntVal(7))])
            == Written(1, [Varbind("1.5.2", "INTEGER", "7")])
    ensures FromOid(TableTree(), 0, Some("1.5.2"), Some("7"), [])
            == OidResult(1, [Pair(2, IntVal(5)), Pair(4, IntVal(7))], NoError)
  {
    TableTreeText();
    TableOidText();
    IndexedVarbindMisread(TableTree(), 0, 5, Bytes("INTEGER"), 1, 2, 3, 5, Pair(4, IntVal(7)), []);
    IndexedVarbindReadsBack(TableTree(), 0, 5, Bytes("INTEGER"), 1, 2, 3, 5, Pair(4, IntVal(7)), []);
  }
}

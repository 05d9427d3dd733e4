/** radsnmp_get_response and radsnmp_set_response: the pairs of a reply turned
  * back into the lines of net-snmp's pass_persist protocol. Writes to the
  * output descriptor are modelled as the list of chunks written, one per
  * write/writev call; writes are taken to succeed. */
module Response {
  import opened Wrappers
  import opened Text
  import opened Dict
  import opened Pairs

  /** Sizes of oid_buff, type_buff and value_buff in radsnmp_get_response, and
    * of the buffer in radsnmp_set_response. */
  const OID_BUFF: nat := 256
  const TYPE_BUFF: nat := 32
  const VALUE_BUFF: nat := 128
  const SET_BUFF: nat := 64

  /** Why radsnmp_get_response returns -1. */
  datatype FmtError =
    | OutOfOrder            // "Out of order index attributes"
    | IndexNotInteger       // "Index attribute ... is not of type "integer""
    | OidBufferTooSmall     // "OID Buffer too small"
    | NoType                // "No ... found in response, or occurred after value attribute"
    | TypeOverRead          // type_len exceeds type_buff: the source reads past the buffer
    | ValueBufferTooSmall   // "Insufficient fixed value buffer"
    | NoEntry               // as intended only: the index's table has no `tlv` entry numbered 1

  /** The state of the loop of radsnmp_get_response: the `parent` cursor, the
    * OID text in oid_buff before the write pointer `p`, the 32 bytes of
    * type_buff, type_len, `written`, and the chunks written so far. */
  datatype Fmt = Fmt(parent: NodeId, oid: string, typeBuf: string, typeLen: nat, written: nat,
                     out: seq<string>)

  /** The loop goes on with a new state, or the function returns -1 after
    * writing `out`. */
  datatype Outcome = Cont(st: Fmt) | Fail(err: FmtError, out: seq<string>)

  /** What a response function returns and the chunks it wrote. */
  datatype Written = Written(r: int, out: seq<string>)

  /** Pairs of a decoded reply: each has a dictionary attribute and a value of
    * that attribute's type. */
  predicate Decoded(t: Tree, vps: seq<Pair>)
  {
    forall i :: 0 <= i < |vps| ==> IsDecoded(t, vps[i])
  }

  predicate IsDecoded(t: Tree, pr: Pair)
  {
    pr.da in t.attrs && (t.attrs[pr.da].kind != Tlv ==> WellTyped(t.attrs[pr.da].kind, pr.value))
  }

  /** The write pointer stays inside oid_buff (leaving room for the NUL), and
    * every chunk written is one varbind. */
  predicate Inv(t: Tree, st: Fmt)
  {
    st.parent in t.attrs && |st.oid| < OID_BUFF && |st.typeBuf| == TYPE_BUFF && |st.out| == st.written
  }

  function Min(a: nat, b: nat): nat
  {
    if a < b then a else b
  }

  /** type_buff as the source initialises it: its first byte NUL. The other
    * bytes are not initialised in the source; they are taken as NUL here. */
  function InitTypeBuf(): (r: string)
    ensures |r| == TYPE_BUFF && r[0] == '\0'
  {
    seq(TYPE_BUFF, i => '\0')
  }

  function Start(root: NodeId): Fmt
  {
    Fmt(root, [], InitTypeBuf(), 0, 0, [])
  }

  /** fr_pair_value_snprint into type_buff: at most 31 characters and a NUL are
    * stored; the bytes after the NUL keep what they held. */
  function StoreType(buf: string, text: string): (r: string)
    requires |buf| == TYPE_BUFF
    ensures |r| == TYPE_BUFF
    ensures |text| < TYPE_BUFF ==> r[..|text|] == text && r[|text|] == '\0'
  {
    var n := Min(|text|, TYPE_BUFF - 1);
    text[..n] + ['\0'] + buf[n + 1..]
  }

  /** The one writev of a varbind: OID, type and value, each on its own line. */
  function Varbind(oid: string, typ: string, value: string): string
  {
    oid + "\n" + typ + "\n" + value + "\n"
  }

  /** A varbind is never the "NONE" line: it holds three newlines. */
  lemma VarbindIsNotNone(oid: string, typ: string, value: string)
    ensures Varbind(oid, typ, value) != "NONE\n"
  {
    var v := Varbind(oid, typ, value);
    assert v[|oid|] == '\n' && v[|v| - 1] == '\n';
  }

  /** The value line of a leaf: the raw bytes of a string or octets value,
    * anything else printed into value_buff (None when that truncates). */
  function LeafValue(k: AttrType, v: Value): (r: Option<string>)
    requires k == Octets || k == String ==> v.Bytes?
    ensures r.Some? && (k == Octets || k == String) ==> r.value == v.b
    ensures r.Some? && !(k == Octets || k == String) ==> r.value == ValueText(k, v) && |r.value| < VALUE_BUFF
    ensures r.None? <==> !(k == Octets || k == String) && |ValueText(k, v)| >= VALUE_BUFF
  {
    if k == Octets || k == String then Some(v.b)
    else
      var text := ValueText(k, v);
      if |text| >= VALUE_BUFF then None else Some(text)
  }

  /** The text an index pair adds after the path to its parent: ".%i.". */
  function IndexText(n: nat): string
    requires n < UINT32
  {
    "." + Int32Text(n) + "."
  }

  /** One pass of the loop of radsnmp_get_response (lines 374-503) over the
    * pair `pr`. */
  function Step(t: Tree, root: NodeId, typeDa: NodeId, st: Fmt, pr: Pair): (r: Outcome)
    requires Valid(t) && root in t.attrs && Inv(t, st) && pr.da in t.attrs
    requires IsDecoded(t, pr)
    ensures r.Cont? ==> Inv(t, r.st) && r.st.written <= st.written + 1
    ensures r.Fail? ==> r.out == st.out
  {
    var da := pr.da;
    var a := t.attrs[da];
    if da == typeDa then
      var text := ValueText(a.kind, pr.value);
      Cont(st.(typeBuf := StoreType(st.typeBuf, text), typeLen := |text|))
    else if ParentCommon(t, root, da).None? then Cont(st)
    else if ParentCommon(t, st.parent, da).None? then Fail(OutOfOrder, st.out)
    else if a.num == 0 then
      ProperAncestor(t, st.parent, da);
      var path := OidText(OidPath(t, st.parent, a.parent));
      if a.kind != Integer then Fail(IndexNotInteger, st.out)
      else if |path| >= OID_BUFF - |st.oid| then Fail(OidBufferTooSmall, st.out)
      else if |IndexText(pr.value.n)| >= OID_BUFF - |st.oid| - |path| then Fail(OidBufferTooSmall, st.out)
      else Cont(st.(parent := a.parent, oid := st.oid + path + IndexText(pr.value.n)))
    else
      var path := OidText(OidPath(t, st.parent, da));
      var oid := st.oid + path[..Min(|path|, OID_BUFF - 1 - |st.oid|)];
      if st.typeLen == 0 then Fail(NoType, st.out)
      else if st.typeLen > TYPE_BUFF then Fail(TypeOverRead, st.out)
      else
        match LeafValue(a.kind, pr.value)
        case None => Fail(ValueBufferTooSmall, st.out)
        case Some(value) =>
          Cont(Fmt(root, [], ['\0'] + st.typeBuf[1..], st.typeLen, st.written + 1,
                   st.out + [Varbind(oid, st.typeBuf[..st.typeLen], value)]))
  }

  /** The text an index pair beneath the cursor `parent` adds to oid_buff:
    * the path down to the index's table, then ".<index>.". */
  function IndexOid(t: Tree, parent: NodeId, pr: Pair): string
    requires Valid(t) && pr.da in t.attrs && ParentCommon(t, parent, pr.da).Some?
    requires pr.value.IntVal? && pr.value.n < UINT32
  {
    ProperAncestor(t, parent, pr.da);
    OidText(OidPath(t, parent, t.attrs[pr.da].parent)) + IndexText(pr.value.n)
  }

  /** A pair beneath the root that is not the type: an index attribute
    * (number 0) or a leaf. */
  predicate IsIndexAttr(t: Tree, root: NodeId, typeDa: NodeId, pr: Pair)
    requires Valid(t) && pr.da in t.attrs
  {
    pr.da != typeDa && ParentCommon(t, root, pr.da).Some? && t.attrs[pr.da].num == 0
  }

  /** The entry of a table: its `tlv` child numbered 1, SNMP's convention,
    * which radsnmp_pair_from_oid also relies on (lines 234-246). */
  function EntryOf(t: Tree, tbl: NodeId): (r: Option<NodeId>)
    requires Valid(t)
    ensures r.Some? ==> r.value in t.attrs && t.attrs[r.value].parent == tbl && t.attrs[r.value].depth > 0
                        && t.attrs[r.value].num == 1 && t.attrs[r.value].kind == Tlv
    ensures r.None? ==> ChildByNum(t, tbl, 1).None? || t.attrs[ChildByNum(t, tbl, 1).value].kind != Tlv
  {
    match ChildByNum(t, tbl, 1)
    case None => None
    case Some(e) => if t.attrs[e].kind == Tlv then Some(e) else None
  }

  /** The pass as evidently intended. After a varbind the held type is
    * forgotten altogether (type_len as well as type_buff[0]). After an index
    * pair the cursor moves to the table's entry rather than to the table, so
    * that the leaf's OID continues below the entry, as radsnmp_pair_from_oid
    * reads it back; a table without an entry fails the reply. */
  function StepFixed(t: Tree, root: NodeId, typeDa: NodeId, st: Fmt, pr: Pair): (r: Outcome)
    requires Valid(t) && root in t.attrs && Inv(t, st) && pr.da in t.attrs
    requires IsDecoded(t, pr)
    ensures r.Cont? ==> Inv(t, r.st) && r.st.written <= st.written + 1
    ensures r.Cont? && r.st.written == st.written + 1 ==> r.st.typeLen == 0
    ensures r.Fail? ==> r.out == st.out
  {
    var r := Step(t, root, typeDa, st, pr);
    if r.Cont? && r.st.written == st.written + 1 then Cont(r.st.(typeLen := 0))
    else if r.Cont? && IsIndexAttr(t, root, typeDa, pr) then
      match EntryOf(t, t.attrs[pr.da].parent)
      case None => Fail(NoEntry, st.out)
      case Some(e) => Cont(r.st.(parent := e))
    else r
  }

  /** One pass as written or (`fixed`) as evidently intended. */
  function StepAs(t: Tree, root: NodeId, typeDa: NodeId, fixed: bool, st: Fmt, pr: Pair): (r: Outcome)
    requires Valid(t) && root in t.attrs && Inv(t, st) && pr.da in t.attrs
    requires IsDecoded(t, pr)
    ensures r.Cont? ==> Inv(t, r.st) && r.st.written <= st.written + 1
    ensures r.Fail? ==> r.out == st.out
  {
    if fixed then StepFixed(t, root, typeDa, st, pr) else Step(t, root, typeDa, st, pr)
  }

  /** The loop over the remaining pairs `vps`, as written or (`fixed`) as
    * evidently intended. */
  function Format(t: Tree, root: NodeId, typeDa: NodeId, fixed: bool, st: Fmt, vps: seq<Pair>): (r: Outcome)
    requires Valid(t) && root in t.attrs && Inv(t, st) && Decoded(t, vps)
    ensures r.Cont? ==> Inv(t, r.st) && r.st.written >= st.written
    decreases |vps|
  {
    if vps == [] then Cont(st)
    else
      match StepAs(t, root, typeDa, fixed, st, vps[0])
      case Fail(e, out) => Fail(e, out)
      case Cont(st') =>
        Format(t, root, typeDa, fixed, st', vps[1..])
  }

  /** radsnmp_get_response's result and the chunks it writes: -1 on failure,
    * otherwise the number of varbinds, with "NONE" written when there are
    * none. */
  function GetResult(t: Tree, root: NodeId, typeDa: NodeId, fixed: bool, head: seq<Pair>): Written
    requires Valid(t) && root in t.attrs && Decoded(t, head)
  {
    var f := Format(t, root, typeDa, fixed, Start(root), head);
    if f.Fail? then Written(-1, f.out)
    else Written(f.st.written, if f.st.written == 0 then f.st.out + ["NONE\n"] else f.st.out)
  }

  /** Format unfolded by one pair. */
  lemma FormatStep(t: Tree, root: NodeId, typeDa: NodeId, st: Fmt, vps: seq<Pair>)
    requires Valid(t) && root in t.attrs && Inv(t, st) && Decoded(t, vps) && vps != []
    ensures IsDecoded(t, vps[0])
    ensures Step(t, root, typeDa, st, vps[0]).Fail? ==>
              Format(t, root, typeDa, false, st, vps) == Fail(Step(t, root, typeDa, st, vps[0]).err, st.out)
    ensures Step(t, root, typeDa, st, vps[0]).Cont? ==>
              Format(t, root, typeDa, false, st, vps) ==
              Format(t, root, typeDa, false, Step(t, root, typeDa, st, vps[0]).st, vps[1..])
  {
    assert IsDecoded(t, vps[0]);
  }

  /** The body of the loop of radsnmp_get_response (lines 374-503) for the
    * pair `pr`: `done` when the function returns -1 there, otherwise the
    * state the next pass starts from. */
  method Pass(t: Tree, root: NodeId, typeDa: NodeId, parent: NodeId, oid: string, typeBuf: string,
              typeLen: nat, written: nat, out: seq<string>, pr: Pair)
    returns (done: bool, parent': NodeId, oid': string, typeBuf': string, typeLen': nat, written': nat,
             out': seq<string>)
    requires Valid(t) && root in t.attrs && Inv(t, Fmt(parent, oid, typeBuf, typeLen, written, out))
    requires IsDecoded(t, pr)
    ensures done <==> Step(t, root, typeDa, Fmt(parent, oid, typeBuf, typeLen, written, out), pr).Fail?
    ensures done ==> out' == out
    ensures !done ==> Step(t, root, typeDa, Fmt(parent, oid, typeBuf, typeLen, written, out), pr)
                      == Cont(Fmt(parent', oid', typeBuf', typeLen', written', out'))
  {
    parent', oid', typeBuf', typeLen', written', out' := parent, oid, typeBuf, typeLen, written, out;
    var da := t.attrs[pr.da];
    if pr.da == typeDa {
      var text := ValueText(da.kind, pr.value);
      typeBuf' := StoreType(typeBuf, text);
      typeLen' := |text|;
      return false, parent', oid', typeBuf', typeLen', written', out';
    }
    if ParentCommon(t, root, pr.da).None? {     // not beneath root
      return false, parent', oid', typeBuf', typeLen', written', out';
    }
    if ParentCommon(t, parent, pr.da).None? {   // out of order
      return true, parent', oid', typeBuf', typeLen', written', out';
    }
    if da.num == 0 {                            // index attribute
      ProperAncestor(t, parent, pr.da);
      var path := OidText(OidPath(t, parent, da.parent));
      if da.kind != Integer || |path| >= OID_BUFF - |oid| {
        return true, parent', oid', typeBuf', typeLen', written', out';
      }
      oid' := oid + path;
      var index := IndexText(pr.value.n);
      if |index| >= OID_BUFF - |oid'| {
        return true, parent', oid', typeBuf', typeLen', written', out';
      }
      oid' := oid' + index;
      parent' := da.parent;
      return false, parent', oid', typeBuf', typeLen', written', out';
    }
    var path := OidText(OidPath(t, parent, pr.da));   // printed with at most the room left
    var line := oid + path[..Min(|path|, OID_BUFF - 1 - |oid|)];
    if typeLen == 0 || typeLen > TYPE_BUFF {
      return true, parent', oid', typeBuf', typeLen', written', out';
    }
    var value: string;
    if da.kind == Octets || da.kind == String {
      value := pr.value.b;
    } else {
      value := ValueText(da.kind, pr.value);
      if |value| >= VALUE_BUFF {
        return true, parent', oid', typeBuf', typeLen', written', out';
      }
    }
    out' := out + [Varbind(line, typeBuf[..typeLen], value)];
    parent', oid' := root, [];
    typeBuf' := ['\0'] + typeBuf[1..];
    written' := written + 1;
    done := false;
  }

  /** radsnmp_get_response (lines 343-511) over the reply pairs `head`:
    * returns the number of varbinds written or -1, and the chunks written. */
  method GetResponse(t: Tree, root: NodeId, typeDa: NodeId, head: seq<Pair>) returns (r: int, out: seq<string>)
    requires Valid(t) && root in t.attrs && Decoded(t, head)
    ensures Written(r, out) == GetResult(t, root, typeDa, false, head)
  {
    var parent := root;
    var written: nat := 0;
    var typeBuf := InitTypeBuf();
    var typeLen: nat := 0;
    var oid: string := [];
    out := [];
    ghost var whole := Format(t, root, typeDa, false, Start(root), head);
    var i := 0;
    while i < |head|
      invariant 0 <= i <= |head|
      invariant Inv(t, Fmt(parent, oid, typeBuf, typeLen, written, out))
      invariant Format(t, root, typeDa, false, Fmt(parent, oid, typeBuf, typeLen, written, out), head[i..]) == whole
    {
      assert head[i..][0] == head[i] && head[i..][1..] == head[i + 1..];
      FormatStep(t, root, typeDa, Fmt(parent, oid, typeBuf, typeLen, written, out), head[i..]);
      var done;
      done, parent, oid, typeBuf, typeLen, written, out :=
        Pass(t, root, typeDa, parent, oid, typeBuf, typeLen, written, out, head[i]);
      if done {
        return -1, out;
      }
      i := i + 1;
    }
    if written == 0 {
      out := out + ["NONE\n"];
    }
    r := written;
  }

  /** A pair that gives a varbind: not the type attribute, beneath `root`, and
    * not an index attribute (number 0). */
  predicate IsLeaf(t: Tree, root: NodeId, typeDa: NodeId, pr: Pair)
    requires Valid(t) && pr.da in t.attrs
  {
    pr.da != typeDa && ParentCommon(t, root, pr.da).Some? && t.attrs[pr.da].num != 0
  }

  /** The number of pairs of `vps` that give a varbind. */
  function CountLeaves(t: Tree, root: NodeId, typeDa: NodeId, vps: seq<Pair>): nat
    requires Valid(t) && Decoded(t, vps)
  {
    if vps == [] then 0
    else
      assert IsDecoded(t, vps[0]);
      (if IsLeaf(t, root, typeDa, vps[0]) then 1 else 0) + CountLeaves(t, root, typeDa, vps[1..])
  }

  /** `out'` is `out` followed by chunks none of which is the "NONE" line. */
  predicate Extends(out: seq<string>, out': seq<string>)
  {
    |out| <= |out'| && out'[..|out|] == out && forall i :: |out| <= i < |out'| ==> out'[i] != "NONE\n"
  }

  /** One pass writes one varbind exactly for a pair that gives one, and
    * otherwise leaves the count and the output alone. */
  lemma StepEffect(t: Tree, root: NodeId, typeDa: NodeId, fixed: bool, st: Fmt, pr: Pair)
    requires Valid(t) && root in t.attrs && Inv(t, st) && IsDecoded(t, pr)
    ensures var r := StepAs(t, root, typeDa, fixed, st, pr);
            && (r.Cont? && IsLeaf(t, root, typeDa, pr) ==>
                  r.st.written == st.written + 1 && |r.st.out| == |st.out| + 1 && Extends(st.out, r.st.out))
            && (r.Cont? && !IsLeaf(t, root, typeDa, pr) ==> r.st.written == st.written && r.st.out == st.out)
  {
    var r := Step(t, root, typeDa, st, pr);
    if r.Cont? && IsLeaf(t, root, typeDa, pr) {
      var a := t.attrs[pr.da];
      var path := OidText(OidPath(t, st.parent, pr.da));
      var oid := st.oid + path[..Min(|path|, OID_BUFF - 1 - |st.oid|)];
      VarbindIsNotNone(oid, st.typeBuf[..st.typeLen], LeafValue(a.kind, pr.value).value);
    }
  }

  /** Over the remaining pairs: on success the count grows by the number of
    * pairs that give a varbind; either way only varbinds are appended. */
  lemma {:induction false} FormatCount(t: Tree, root: NodeId, typeDa: NodeId, fixed: bool, st: Fmt, vps: seq<Pair>)
    requires Valid(t) && root in t.attrs && Inv(t, st) && Decoded(t, vps)
    ensures var r := Format(t, root, typeDa, fixed, st, vps);
            && (r.Cont? ==> r.st.written == st.written + CountLeaves(t, root, typeDa, vps) && Extends(st.out, r.st.out))
            && (r.Fail? ==> Extends(st.out, r.out))
    decreases |vps|
  {
    if vps != [] {
      assert IsDecoded(t, vps[0]);
      StepEffect(t, root, typeDa, fixed, st, vps[0]);
      var s := StepAs(t, root, typeDa, fixed, st, vps[0]);
      if s.Cont? {
        FormatCount(t, root, typeDa, fixed, s.st, vps[1..]);
        var r := Format(t, root, typeDa, fixed, s.st, vps[1..]);
        ExtendsTrans(st.out, s.st.out, if r.Cont? then r.st.out else r.out);
      }
    }
  }

  lemma ExtendsTrans(a: seq<string>, b: seq<string>, c: seq<string>)
    requires Extends(a, b) && Extends(b, c)
    ensures Extends(a, c)
  {
    assert c[..|b|][..|a|] == c[..|a|];
  }

  /** radsnmp_get_response returns -1 or the number of pairs beneath the root
    * that give a varbind; it writes "NONE" exactly when that number is 0, and
    * otherwise one varbind per pair. */
  lemma GetResultCount(t: Tree, root: NodeId, typeDa: NodeId, fixed: bool, head: seq<Pair>)
    requires Valid(t) && root in t.attrs && Decoded(t, head)
    ensures var w := GetResult(t, root, typeDa, fixed, head);
            && (w.r >= 0 ==> w.r == CountLeaves(t, root, typeDa, head))
            && (w.r < 0 ==> w.r == -1 && "NONE\n" !in w.out)
            && (w.r == 0 <==> w.out == ["NONE\n"])
            && (w.r > 0 ==> |w.out| == w.r && "NONE\n" !in w.out)
  {
    FormatCount(t, root, typeDa, fixed, Start(root), head);
    var w := GetResult(t, root, typeDa, fixed, head);
    if w.out == ["NONE\n"] {
      assert w.out[0] == "NONE\n";
    }
  }

  /** A varbind needs a type: a leaf before any type pair fails the whole
    * reply with nothing written. */
  lemma LeafBeforeType(t: Tree, root: NodeId, typeDa: NodeId, fixed: bool, pr: Pair, rest: seq<Pair>)
    requires Valid(t) && root in t.attrs && Decoded(t, [pr] + rest) && pr.da in t.attrs
    requires IsLeaf(t, root, typeDa, pr)
    ensures GetResult(t, root, typeDa, fixed, [pr] + rest) == Written(-1, [])
  {
    var head := [pr] + rest;
    assert head[0] == pr;
    assert Step(t, root, typeDa, Start(root), pr) == Fail(NoType, []);
  }

  /** Format unfolded by a first pair `pr`. */
  lemma FormatCons(t: Tree, root: NodeId, typeDa: NodeId, fixed: bool, st: Fmt, pr: Pair, rest: seq<Pair>)
    requires Valid(t) && root in t.attrs && Inv(t, st) && IsDecoded(t, pr) && Decoded(t, rest)
    ensures Decoded(t, [pr] + rest)
    ensures StepAs(t, root, typeDa, fixed, st, pr).Fail? ==>
              Format(t, root, typeDa, fixed, st, [pr] + rest) == Fail(StepAs(t, root, typeDa, fixed, st, pr).err, st.out)
    ensures StepAs(t, root, typeDa, fixed, st, pr).Cont? ==>
              Format(t, root, typeDa, fixed, st, [pr] + rest) ==
              Format(t, root, typeDa, fixed, StepAs(t, root, typeDa, fixed, st, pr).st, rest)
  {
    var vps := [pr] + rest;
    assert vps[0] == pr && vps[1..] == rest;
    assert forall i :: 1 <= i < |vps| ==> vps[i] == rest[i - 1];
  }

  /** A type pair stores its printed value in type_buff and its length in type_len. */
  lemma StepTypePair(t: Tree, root: NodeId, typeDa: NodeId, fixed: bool, st: Fmt, tv: Value)
    requires Valid(t) && root in t.attrs && Inv(t, st) && IsDecoded(t, Pair(typeDa, tv))
    ensures var text := ValueText(t.attrs[typeDa].kind, tv);
            StepAs(t, root, typeDa, fixed, st, Pair(typeDa, tv)) ==
            Cont(st.(typeBuf := StoreType(st.typeBuf, text), typeLen := |text|))
  {
  }

  /** A leaf beneath the cursor, with a type held and a value that fits, writes
    * one varbind and returns the cursor to the root. */
  lemma StepLeafPair(t: Tree, root: NodeId, typeDa: NodeId, fixed: bool, st: Fmt, pr: Pair)
    requires Valid(t) && root in t.attrs && Inv(t, st) && IsDecoded(t, pr)
    requires IsLeaf(t, root, typeDa, pr) && ParentCommon(t, st.parent, pr.da).Some?
    requires 0 < st.typeLen <= TYPE_BUFF && LeafValue(t.attrs[pr.da].kind, pr.value).Some?
    ensures var path := OidText(OidPath(t, st.parent, pr.da));
            StepAs(t, root, typeDa, fixed, st, pr) ==
            Cont(Fmt(root, [], ['\0'] + st.typeBuf[1..], if fixed then 0 else st.typeLen, st.written + 1,
                     st.out + [Varbind(st.oid + path[..Min(|path|, OID_BUFF - 1 - |st.oid|)],
                                       st.typeBuf[..st.typeLen], LeafValue(t.attrs[pr.da].kind, pr.value).value)]))
  {
  }

  /** A pair that is not the type and not beneath the root is skipped: the
    * cursor, oid_buff, the type, the count and the output are unchanged. */
  lemma StepOutsideRoot(t: Tree, root: NodeId, typeDa: NodeId, fixed: bool, st: Fmt, pr: Pair)
    requires Valid(t) && root in t.attrs && Inv(t, st) && IsDecoded(t, pr)
    requires pr.da != typeDa && ParentCommon(t, root, pr.da).None?
    ensures StepAs(t, root, typeDa, fixed, st, pr) == Cont(st)
  {
  }

  /** So the loop over the pairs goes on as if such a pair were not there. */
  lemma FormatSkipsOutside(t: Tree, root: NodeId, typeDa: NodeId, fixed: bool, st: Fmt, pr: Pair, rest: seq<Pair>)
    requires Valid(t) && root in t.attrs && Inv(t, st) && IsDecoded(t, pr) && Decoded(t, rest)
    requires pr.da != typeDa && ParentCommon(t, root, pr.da).None?
    ensures Decoded(t, [pr] + rest)
    ensures Format(t, root, typeDa, fixed, st, [pr] + rest) == Format(t, root, typeDa, fixed, st, rest)
  {
    StepOutsideRoot(t, root, typeDa, fixed, st, pr);
    FormatCons(t, root, typeDa, fixed, st, pr, rest);
  }

  /** A leaf beneath the cursor, with a type held, whose value is printed and
    * does not fit the 128 bytes of value_buff fails the reply with nothing
    * more written. */
  lemma StepValueTooLong(t: Tree, root: NodeId, typeDa: NodeId, fixed: bool, st: Fmt, pr: Pair)
    requires Valid(t) && root in t.attrs && Inv(t, st) && IsDecoded(t, pr)
    requires IsLeaf(t, root, typeDa, pr) && ParentCommon(t, st.parent, pr.da).Some?
    requires 0 < st.typeLen <= TYPE_BUFF
    requires t.attrs[pr.da].kind != String && t.attrs[pr.da].kind != Octets
    requires |ValueText(t.attrs[pr.da].kind, pr.value)| >= VALUE_BUFF
    ensures StepAs(t, root, typeDa, fixed, st, pr) == Fail(ValueBufferTooSmall, st.out)
  {
  }

  /** A reply of a type pair and a leaf beneath the root whose printed value
    * does not fit value_buff: radsnmp_get_response returns -1 with nothing
    * written. */
  lemma ValueTooLongFails(t: Tree, root: NodeId, typeDa: NodeId, fixed: bool, tv: Value, pr: Pair)
    requires Valid(t) && root in t.attrs && TypeFits(t, typeDa, tv) && IsDecoded(t, pr)
    requires IsLeaf(t, root, typeDa, pr)
    requires t.attrs[pr.da].kind != String && t.attrs[pr.da].kind != Octets
    requires |ValueText(t.attrs[pr.da].kind, pr.value)| >= VALUE_BUFF
    ensures Decoded(t, [Pair(typeDa, tv), pr])
    ensures GetResult(t, root, typeDa, fixed, [Pair(typeDa, tv), pr]) == Written(-1, [])
  {
    var text := ValueText(t.attrs[typeDa].kind, tv);
    assert Decoded(t, [pr] + []);
    FormatTypeFirst(t, root, typeDa, fixed, tv, [pr]);
    var st1 := Start(root).(typeBuf := StoreType(InitTypeBuf(), text), typeLen := |text|);
    StepValueTooLong(t, root, typeDa, fixed, st1, pr);
    FormatCons(t, root, typeDa, fixed, st1, pr, []);
    assert [Pair(typeDa, tv)] + [pr] == [Pair(typeDa, tv), pr];
  }

  /** A pair beneath the root but not beneath the cursor is out of order:
    * the reply fails with nothing more written. */
  lemma StepOutOfOrder(t: Tree, root: NodeId, typeDa: NodeId, fixed: bool, st: Fmt, pr: Pair)
    requires Valid(t) && root in t.attrs && Inv(t, st) && IsDecoded(t, pr)
    requires pr.da != typeDa && ParentCommon(t, root, pr.da).Some?
    requires ParentCommon(t, st.parent, pr.da).None?
    ensures StepAs(t, root, typeDa, fixed, st, pr) == Fail(OutOfOrder, st.out)
  {
  }

  /** An index attribute beneath the cursor that is not an `integer` fails
    * the reply. */
  lemma StepIndexNotInteger(t: Tree, root: NodeId, typeDa: NodeId, fixed: bool, st: Fmt, pr: Pair)
    requires Valid(t) && root in t.attrs && Inv(t, st) && IsDecoded(t, pr)
    requires IsIndexAttr(t, root, typeDa, pr) && ParentCommon(t, st.parent, pr.da).Some?
    requires t.attrs[pr.da].kind != Integer
    ensures StepAs(t, root, typeDa, fixed, st, pr) == Fail(IndexNotInteger, st.out)
  {
  }

  /** As written, an `integer` index pair beneath the cursor whose text fits
    * oid_buff appends the path to its table and ".<index>.", and moves the
    * cursor to the table; the type, the count and the output stay as they
    * were. */
  lemma StepIndexPair(t: Tree, root: NodeId, typeDa: NodeId, st: Fmt, pr: Pair)
    requires Valid(t) && root in t.attrs && Inv(t, st) && IsDecoded(t, pr)
    requires IsIndexAttr(t, root, typeDa, pr) && ParentCommon(t, st.parent, pr.da).Some?
    requires t.attrs[pr.da].kind == Integer
    requires |st.oid| + |IndexOid(t, st.parent, pr)| < OID_BUFF
    ensures Step(t, root, typeDa, st, pr) ==
            Cont(Fmt(t.attrs[pr.da].parent, st.oid + IndexOid(t, st.parent, pr), st.typeBuf, st.typeLen,
                     st.written, st.out))
  {
    ProperAncestor(t, st.parent, pr.da);
    var path := OidText(OidPath(t, st.parent, t.attrs[pr.da].parent));
    assert IndexOid(t, st.parent, pr) == path + IndexText(pr.value.n);
    assert |path| < OID_BUFF - |st.oid| && |IndexText(pr.value.n)| < OID_BUFF - |st.oid| - |path|;
    assert st.oid + path + IndexText(pr.value.n) == st.oid + IndexOid(t, st.parent, pr);
  }

  /** An index pair whose text does not fit oid_buff fails the reply rather
    * than being cut short. */
  lemma StepIndexOverflow(t: Tree, root: NodeId, typeDa: NodeId, fixed: bool, st: Fmt, pr: Pair)
    requires Valid(t) && root in t.attrs && Inv(t, st) && IsDecoded(t, pr)
    requires IsIndexAttr(t, root, typeDa, pr) && ParentCommon(t, st.parent, pr.da).Some?
    requires t.attrs[pr.da].kind == Integer
    requires |st.oid| + |IndexOid(t, st.parent, pr)| >= OID_BUFF
    ensures StepAs(t, root, typeDa, fixed, st, pr) == Fail(OidBufferTooSmall, st.out)
  {
  }

  /** As intended, the same index pair moves the cursor to its table's entry
    * instead, and fails the reply when the table has none. */
  lemma StepFixedIndexPair(t: Tree, root: NodeId, typeDa: NodeId, st: Fmt, pr: Pair)
    requires Valid(t) && root in t.attrs && Inv(t, st) && IsDecoded(t, pr)
    requires IsIndexAttr(t, root, typeDa, pr) && ParentCommon(t, st.parent, pr.da).Some?
    requires t.attrs[pr.da].kind == Integer
    requires |st.oid| + |IndexOid(t, st.parent, pr)| < OID_BUFF
    ensures var e := EntryOf(t, t.attrs[pr.da].parent);
            && (e.Some? ==> StepFixed(t, root, typeDa, st, pr) ==
                              Cont(Fmt(e.value, st.oid + IndexOid(t, st.parent, pr), st.typeBuf, st.typeLen,
                                       st.written, st.out)))
            && (e.None? ==> StepFixed(t, root, typeDa, st, pr) == Fail(NoEntry, st.out))
  {
    StepIndexPair(t, root, typeDa, st, pr);
  }

  /** The pairs of a reply must come grouped by table: after an index pair
    * of one table, a pair beneath the root but not beneath that table fails
    * the whole reply with nothing written, as written and as intended. */
  lemma UnrelatedAfterIndex(t: Tree, root: NodeId, typeDa: NodeId, fixed: bool, ix: Pair, pr: Pair, rest: seq<Pair>)
    requires Valid(t) && root in t.attrs && ix.da in t.attrs && pr.da in t.attrs && Decoded(t, [ix, pr] + rest)
    requires IsIndexAttr(t, root, typeDa, ix) && t.attrs[ix.da].kind == Integer
    requires pr.da != typeDa && ParentCommon(t, root, pr.da).Some?
    requires ParentCommon(t, t.attrs[ix.da].parent, pr.da).None?
    ensures GetResult(t, root, typeDa, fixed, [ix, pr] + rest) == Written(-1, [])
  {
    var head := [ix, pr] + rest;
    assert head[0] == ix && head[1] == pr && head[1..] == [pr] + rest;
    assert IsDecoded(t, ix) && IsDecoded(t, pr);
    assert Decoded(t, rest) by {
      assert forall i :: 0 <= i < |rest| ==> rest[i] == head[i + 2];
    }
    var st := Start(root);
    FormatCons(t, root, typeDa, fixed, st, ix, [pr] + rest);
    var s1 := StepAs(t, root, typeDa, fixed, st, ix);
    if s1.Cont? {
      ParentFacts(t, ix.da);
      if |IndexOid(t, root, ix)| >= OID_BUFF {
        StepIndexOverflow(t, root, typeDa, fixed, st, ix);
      }
      StepFixedIndexPair(t, root, typeDa, st, ix);
      if fixed {
        BelowEntry(t, t.attrs[ix.da].parent, s1.st.parent, pr.da);
      }
      StepOutOfOrder(t, root, typeDa, fixed, s1.st, pr);
      FormatCons(t, root, typeDa, fixed, s1.st, pr, rest);
    }
  }

  /** What lies beneath a table's entry lies beneath the table. */
  lemma BelowEntry(t: Tree, tbl: NodeId, e: NodeId, x: NodeId)
    requires Valid(t) && e in t.attrs && x in t.attrs && t.attrs[e].depth > 0 && t.attrs[e].parent == tbl
    requires ParentCommon(t, tbl, x).None?
    ensures ParentCommon(t, e, x).None?
  {
    if ParentCommon(t, e, x).Some? {
      BelowChild(t, e, x);
    }
  }

  /** The first pair of a reply is a type pair: the type is held for what follows. */
  lemma FormatTypeFirst(t: Tree, root: NodeId, typeDa: NodeId, fixed: bool, tv: Value, rest: seq<Pair>)
    requires Valid(t) && root in t.attrs && IsDecoded(t, Pair(typeDa, tv)) && Decoded(t, rest)
    ensures Decoded(t, [Pair(typeDa, tv)] + rest)
    ensures var text := ValueText(t.attrs[typeDa].kind, tv);
            Format(t, root, typeDa, fixed, Start(root), [Pair(typeDa, tv)] + rest) ==
            Format(t, root, typeDa, fixed, Start(root).(typeBuf := StoreType(InitTypeBuf(), text), typeLen := |text|), rest)
  {
    StepTypePair(t, root, typeDa, fixed, Start(root), tv);
    FormatCons(t, root, typeDa, fixed, Start(root), Pair(typeDa, tv), rest);
  }

  /** A type pair whose printed value fits type_buff. */
  predicate TypeFits(t: Tree, typeDa: NodeId, tv: Value)
  {
    IsDecoded(t, Pair(typeDa, tv)) && 0 < |ValueText(t.attrs[typeDa].kind, tv)| < TYPE_BUFF
  }

  /** A pair that gives a varbind whose OID below the root fits oid_buff and
    * whose value fits value_buff. */
  predicate LeafFits(t: Tree, root: NodeId, typeDa: NodeId, pr: Pair)
    requires Valid(t)
  {
    && IsDecoded(t, pr) && IsLeaf(t, root, typeDa, pr)
    && |OidText(OidPath(t, root, pr.da))| < OID_BUFF
    && LeafValue(t.attrs[pr.da].kind, pr.value).Some?
  }

  /** The varbind such a pair gives with type text `typ`, met at the root. */
  function LeafVarbind(t: Tree, root: NodeId, typeDa: NodeId, typ: string, pr: Pair): string
    requires Valid(t) && LeafFits(t, root, typeDa, pr)
  {
    Varbind(OidText(OidPath(t, root, pr.da)), typ, LeafValue(t.attrs[pr.da].kind, pr.value).value)
  }

  /** A leaf met at the root, with a type held: its varbind is written with
    * the whole OID below the root. */
  lemma FormatLeafAtRoot(t: Tree, root: NodeId, typeDa: NodeId, fixed: bool, st: Fmt, pr: Pair, rest: seq<Pair>)
    requires Valid(t) && root in t.attrs && Inv(t, st) && LeafFits(t, root, typeDa, pr) && Decoded(t, rest)
    requires st.parent == root && st.oid == [] && 0 < st.typeLen <= TYPE_BUFF
    ensures Inv(t, Fmt(root, [], ['\0'] + st.typeBuf[1..], if fixed then 0 else st.typeLen, st.written + 1,
                       st.out + [LeafVarbind(t, root, typeDa, st.typeBuf[..st.typeLen], pr)]))
    ensures Format(t, root, typeDa, fixed, st, [pr] + rest) ==
            Format(t, root, typeDa, fixed,
                   Fmt(root, [], ['\0'] + st.typeBuf[1..], if fixed then 0 else st.typeLen, st.written + 1,
                       st.out + [LeafVarbind(t, root, typeDa, st.typeBuf[..st.typeLen], pr)]),
                   rest)
  {
    StepLeafPair(t, root, typeDa, fixed, st, pr);
    var path := OidText(OidPath(t, root, pr.da));
    assert st.oid + path[..Min(|path|, OID_BUFF - 1 - |st.oid|)] == path;
    FormatCons(t, root, typeDa, fixed, st, pr, rest);
  }

  /** A reply holding a type pair and then one leaf beneath the root gives
    * exactly one varbind: the leaf's OID below the root, the printed type and
    * the leaf's value. */
  lemma SingleLeaf(t: Tree, root: NodeId, typeDa: NodeId, fixed: bool, tv: Value, pr: Pair)
    requires Valid(t) && root in t.attrs && TypeFits(t, typeDa, tv) && LeafFits(t, root, typeDa, pr)
    ensures GetResult(t, root, typeDa, fixed, [Pair(typeDa, tv), pr]) ==
            Written(1, [LeafVarbind(t, root, typeDa, ValueText(t.attrs[typeDa].kind, tv), pr)])
  {
    var text := ValueText(t.attrs[typeDa].kind, tv);
    assert Decoded(t, [pr] + []);
    FormatTypeFirst(t, root, typeDa, fixed, tv, [pr]);
    var st1 := Start(root).(typeBuf := StoreType(InitTypeBuf(), text), typeLen := |text|);
    assert st1.typeBuf[..st1.typeLen] == text;
    FormatLeafAtRoot(t, root, typeDa, fixed, st1, pr, []);
    assert [Pair(typeDa, tv)] + [pr] == [Pair(typeDa, tv), pr];
    assert [pr] + [] == [pr];
  }

  /** The OID of a leaf met after one index pair: the path from the root to
    * the table, the index, then the path from the cursor `cur` down to the
    * leaf. */
  function IndexedOid(t: Tree, root: NodeId, tbl: NodeId, i: nat, cur: NodeId, l: NodeId): string
    requires Valid(t) && tbl in t.attrs && l in t.attrs && i < UINT32
    requires ParentCommon(t, root, tbl).Some? && ParentCommon(t, cur, l).Some?
  {
    OidText(OidPath(t, root, tbl) + [i] + OidPath(t, cur, l))
  }

  /** A reply of a type pair, an index pair of a table beneath the root and a
    * leaf beneath the cursor the index leaves (the table as written, its
    * entry as intended) gives one varbind, whose OID is the path to the
    * table, the index, and the path from the cursor to the leaf. */
  lemma IndexedLeaf(t: Tree, root: NodeId, typeDa: NodeId, fixed: bool, tv: Value,
                    tbl: NodeId, ixp: Pair, cur: NodeId, pr: Pair)
    requires Valid(t) && root in t.attrs && TypeFits(t, typeDa, tv)
    requires ixp.da in t.attrs && tbl in t.attrs && cur in t.attrs && t.attrs[ixp.da].parent == tbl
    requires IsIndexAttr(t, root, typeDa, ixp) && t.attrs[ixp.da].kind == Integer
    requires ixp.value.IntVal? && ixp.value.n < INT32 && ParentCommon(t, root, tbl).Some?
    requires fixed ==> EntryOf(t, tbl) == Some(cur)
    requires !fixed ==> cur == tbl
    requires IsDecoded(t, pr) && IsLeaf(t, root, typeDa, pr) && ParentCommon(t, cur, pr.da).Some?
    requires LeafValue(t.attrs[pr.da].kind, pr.value).Some?
    requires |IndexedOid(t, root, tbl, ixp.value.n, cur, pr.da)| < OID_BUFF
    ensures Decoded(t, [Pair(typeDa, tv), ixp, pr])
    ensures GetResult(t, root, typeDa, fixed, [Pair(typeDa, tv), ixp, pr]) ==
            Written(1, [Varbind(IndexedOid(t, root, tbl, ixp.value.n, cur, pr.da), ValueText(t.attrs[typeDa].kind, tv),
                                LeafValue(t.attrs[pr.da].kind, pr.value).value)])
  {
    var text := ValueText(t.attrs[typeDa].kind, tv);
    assert IsDecoded(t, ixp);
    assert Decoded(t, [ixp, pr]);
    FormatTypeFirst(t, root, typeDa, fixed, tv, [ixp, pr]);
    var st1 := Start(root).(typeBuf := StoreType(InitTypeBuf(), text), typeLen := |text|);
    assert st1.typeBuf[..st1.typeLen] == text;
    IndexThenLeaf(t, root, typeDa, fixed, st1, tbl, ixp, cur, pr);
    assert [Pair(typeDa, tv)] + [ixp, pr] == [Pair(typeDa, tv), ixp, pr];
  }

  /** From the root with a type held: the index pair and then the leaf. */
  lemma IndexThenLeaf(t: Tree, root: NodeId, typeDa: NodeId, fixed: bool, st: Fmt,
                      tbl: NodeId, ixp: Pair, cur: NodeId, pr: Pair)
    requires Valid(t) && root in t.attrs && Inv(t, st) && st.parent == root && st.oid == []
    requires 0 < st.typeLen <= TYPE_BUFF
    requires ixp.da in t.attrs && tbl in t.attrs && cur in t.attrs && t.attrs[ixp.da].parent == tbl
    requires IsIndexAttr(t, root, typeDa, ixp) && t.attrs[ixp.da].kind == Integer
    requires ixp.value.IntVal? && ixp.value.n < INT32 && ParentCommon(t, root, tbl).Some?
    requires fixed ==> EntryOf(t, tbl) == Some(cur)
    requires !fixed ==> cur == tbl
    requires IsDecoded(t, pr) && IsLeaf(t, root, typeDa, pr) && ParentCommon(t, cur, pr.da).Some?
    requires LeafValue(t.attrs[pr.da].kind, pr.value).Some?
    requires |IndexedOid(t, root, tbl, ixp.value.n, cur, pr.da)| < OID_BUFF
    ensures Decoded(t, [ixp, pr])
    ensures Format(t, root, typeDa, fixed, st, [ixp, pr]) ==
            Cont(Fmt(root, [], ['\0'] + st.typeBuf[1..], if fixed then 0 else st.typeLen, st.written + 1,
                     st.out + [Varbind(IndexedOid(t, root, tbl, ixp.value.n, cur, pr.da), st.typeBuf[..st.typeLen],
                                       LeafValue(t.attrs[pr.da].kind, pr.value).value)]))
  {
    assert IsDecoded(t, ixp);
    assert Decoded(t, [pr] + []);
    IndexOidText(t, root, tbl, ixp, cur, pr.da);
    var st2 := st.(parent := cur, oid := IndexOid(t, root, ixp));
    IndexStep(t, root, typeDa, fixed, st, tbl, ixp, cur);
    FormatCons(t, root, typeDa, fixed, st, ixp, [pr]);
    StepLeafPair(t, root, typeDa, fixed, st2, pr);
    var path := OidText(OidPath(t, cur, pr.da));
    assert st2.oid + path[..Min(|path|, OID_BUFF - 1 - |st2.oid|)] == IndexedOid(t, root, tbl, ixp.value.n, cur, pr.da);
    FormatCons(t, root, typeDa, fixed, st2, pr, []);
    assert [ixp] + [pr] == [ixp, pr] && [pr] + [] == [pr];
  }

  /** An index pair met at the root, whose text fits, moves the cursor to
    * `cur` and appends its text. */
  lemma IndexStep(t: Tree, root: NodeId, typeDa: NodeId, fixed: bool, st: Fmt, tbl: NodeId, ixp: Pair, cur: NodeId)
    requires Valid(t) && root in t.attrs && Inv(t, st) && st.parent == root && st.oid == []
    requires ixp.da in t.attrs && tbl in t.attrs && cur in t.attrs && t.attrs[ixp.da].parent == tbl
    requires IsIndexAttr(t, root, typeDa, ixp) && t.attrs[ixp.da].kind == Integer
    requires ixp.value.IntVal? && ixp.value.n < UINT32
    requires fixed ==> EntryOf(t, tbl) == Some(cur)
    requires !fixed ==> cur == tbl
    requires |IndexOid(t, root, ixp)| < OID_BUFF
    ensures StepAs(t, root, typeDa, fixed, st, ixp) == Cont(st.(parent := cur, oid := IndexOid(t, root, ixp)))
  {
    assert IsDecoded(t, ixp);
    StepFixedIndexPair(t, root, typeDa, st, ixp);
    assert st.oid + IndexOid(t, root, ixp) == IndexOid(t, root, ixp);
  }

  /** The index's text is the whole OID less the path from the cursor. */
  lemma IndexOidText(t: Tree, root: NodeId, tbl: NodeId, ixp: Pair, cur: NodeId, l: NodeId)
    requires Valid(t) && root in t.attrs && ixp.da in t.attrs && tbl in t.attrs && l in t.attrs
    requires t.attrs[ixp.da].parent == tbl && ParentCommon(t, root, ixp.da).Some?
    requires ixp.value.IntVal? && ixp.value.n < INT32
    requires ParentCommon(t, root, tbl).Some? && ParentCommon(t, cur, l).Some?
    ensures IndexedOid(t, root, tbl, ixp.value.n, cur, l) == IndexOid(t, root, ixp) + OidText(OidPath(t, cur, l))
  {
    var n := ixp.value.n;
    var head := OidPath(t, root, tbl);
    var tail := OidPath(t, cur, l);
    AncestorDepth(t, root, tbl);
    AncestorDepth(t, cur, l);
    assert head != [] && tail != [];
    Int32TextIsNatText(n);
    OidTextConcat(head, [n] + tail);
    assert head + [n] + tail == head + ([n] + tail);
    assert ([n] + tail)[0] == n && ([n] + tail)[1..] == tail;
    ProperAncestor(t, root, ixp.da);
  }

  /** A type pair followed by two leaves beneath the root, as written: after
    * the first varbind only type_buff[0] is cleared and type_len is kept, so
    * the second leaf is written with the first type less its first
    * character instead of failing for want of a type. */
  lemma StaleTypeReused(t: Tree, root: NodeId, typeDa: NodeId, tv: Value, p1: Pair, p2: Pair)
    requires Valid(t) && root in t.attrs && TypeFits(t, typeDa, tv)
    requires LeafFits(t, root, typeDa, p1) && LeafFits(t, root, typeDa, p2)
    ensures var text := ValueText(t.attrs[typeDa].kind, tv);
            GetResult(t, root, typeDa, false, [Pair(typeDa, tv), p1, p2]) ==
            Written(2, [LeafVarbind(t, root, typeDa, text, p1), LeafVarbind(t, root, typeDa, ['\0'] + text[1..], p2)])
  {
    var text := ValueText(t.attrs[typeDa].kind, tv);
    var st2 := TwoLeavesPrefix(t, root, typeDa, false, tv, p1, [p2]);
    assert [Pair(typeDa, tv)] + ([p1] + [p2]) == [Pair(typeDa, tv), p1, p2];
    assert (['\0'] + StoreType(InitTypeBuf(), text)[1..])[..|text|] == ['\0'] + text[1..];
    FormatLeafAtRoot(t, root, typeDa, false, st2, p2, []);
    assert [p2] + [] == [p2];
  }

  /** The same reply as evidently intended (StepFixed): the second leaf has no
    * type of its own and the reply fails after the first varbind. */
  lemma StaleTypeRefused(t: Tree, root: NodeId, typeDa: NodeId, tv: Value, p1: Pair, p2: Pair)
    requires Valid(t) && root in t.attrs && TypeFits(t, typeDa, tv)
    requires LeafFits(t, root, typeDa, p1) && IsDecoded(t, p2) && IsLeaf(t, root, typeDa, p2)
    ensures GetResult(t, root, typeDa, true, [Pair(typeDa, tv), p1, p2]) ==
            Written(-1, [LeafVarbind(t, root, typeDa, ValueText(t.attrs[typeDa].kind, tv), p1)])
  {
    var st2 := TwoLeavesPrefix(t, root, typeDa, true, tv, p1, [p2]);
    assert [Pair(typeDa, tv)] + ([p1] + [p2]) == [Pair(typeDa, tv), p1, p2];
    assert StepAs(t, root, typeDa, true, st2, p2) == Fail(NoType, st2.out);
    FormatCons(t, root, typeDa, true, st2, p2, []);
    assert [p2] + [] == [p2];
  }

  /** A type pair and a first leaf: the state in which the pairs after them are met. */
  lemma TwoLeavesPrefix(t: Tree, root: NodeId, typeDa: NodeId, fixed: bool, tv: Value, p1: Pair, rest: seq<Pair>)
    returns (st2: Fmt)
    requires Valid(t) && root in t.attrs && TypeFits(t, typeDa, tv) && LeafFits(t, root, typeDa, p1) && Decoded(t, rest)
    ensures var text := ValueText(t.attrs[typeDa].kind, tv);
            && Inv(t, st2) && Decoded(t, [Pair(typeDa, tv)] + ([p1] + rest))
            && st2 == Fmt(root, [], ['\0'] + StoreType(InitTypeBuf(), text)[1..], if fixed then 0 else |text|, 1,
                          [LeafVarbind(t, root, typeDa, text, p1)])
            && Format(t, root, typeDa, fixed, Start(root), [Pair(typeDa, tv)] + ([p1] + rest)) ==
               Format(t, root, typeDa, fixed, st2, rest)
  {
    var text := ValueText(t.attrs[typeDa].kind, tv);
    var st1 := Start(root).(typeBuf := StoreType(InitTypeBuf(), text), typeLen := |text|);
    assert st1.typeBuf[..st1.typeLen] == text;
    FormatLeafAtRoot(t, root, typeDa, fixed, st1, p1, rest);
    FormatTypeFirst(t, root, typeDa, fixed, tv, [p1] + rest);
    var vb := LeafVarbind(t, root, typeDa, text, p1);
    assert st1.out + [vb] == [vb];
    st2 := Fmt(root, [], ['\0'] + st1.typeBuf[1..], if fixed then 0 else |text|, 1, [vb]);
  }

  /** A tree for the stale-type example: a root tlv 0, a top-level string
    * attribute 1 carrying the type, and two integer leaves 2 and 3 numbered
    * 1 and 2 under the root. */
  function TypeTree(): (t: Tree)
    ensures Valid(t) && 0 in t.attrs && 1 in t.attrs && 2 in t.attrs && 3 in t.attrs
  {
    var t := Tree(map[0 := Attr(1, Tlv, 0, 0), 1 := Attr(2, String, 1, 0),
                      2 := Attr(1, Integer, 0, 1), 3 := Attr(2, Integer, 0, 1)],
                  map[(0, 1) := 2, (0, 2) := 3]);
    assert ParentOk(t, 0) && ParentOk(t, 1) && ParentOk(t, 2) && ParentOk(t, 3);
    t
  }

  /** The OIDs of the two leaves of TypeTree below its root. */
  lemma TypeTreeLeaves()
    ensures ParentCommon(TypeTree(), 0, 2).Some? && ParentCommon(TypeTree(), 0, 3).Some?
    ensures OidText(OidPath(TypeTree(), 0, 2)) == "1" && OidText(OidPath(TypeTree(), 0, 3)) == "2"
  {
    var t := TypeTree();
    assert IsAncestorOrSelf(t, 0, 2) && IsAncestorOrSelf(t, 0, 3);
    assert OidPath(t, 0, 2) == [1] && OidPath(t, 0, 3) == [2];
    assert NatText(1) == "1" && NatText(2) == "2";
  }

  /** The stale-type reply on TypeTree: type "INTEGER", then leaves 1 and 2
    * with values 5 and 6. The second varbind's type line is "\0NTEGER". */
  lemma StaleTypeExample()
    ensures GetResult(TypeTree(), 0, 1, false, [Pair(1, Bytes("INTEGER")), Pair(2, IntVal(5)), Pair(3, IntVal(6))])
            == Written(2, [Varbind("1", "INTEGER", "5"), Varbind("2", "\0NTEGER", "6")])
    ensures GetResult(TypeTree(), 0, 1, true, [Pair(1, Bytes("INTEGER")), Pair(2, IntVal(5)), Pair(3, IntVal(6))])
            == Written(-1, [Varbind("1", "INTEGER", "5")])
  {
    var t := TypeTree();
    var p1, p2 := Pair(2, IntVal(5)), Pair(3, IntVal(6));
    TypeTreeLeaves();
    assert NatText(5) == "5" && NatText(6) == "6";
    assert ValueText(String, Bytes("INTEGER")) == "INTEGER";
    assert LeafFits(t, 0, 1, p1) && LeafFits(t, 0, 1, p2);
    StaleTypeReused(t, 0, 1, Bytes("INTEGER"), p1, p2);
    StaleTypeRefused(t, 0, 1, Bytes("INTEGER"), p1, p2);
    assert ['\0'] + "INTEGER"[1..] == "\0NTEGER";
  }

  /** radsnmp_set_response (lines 525-561): "DONE" when the reply holds no
    * pair of the error attribute; otherwise the first such pair's value
    * printed into a 64-byte buffer and written on a line of its own, or -1
    * with nothing written when it does not fit. */
  function SetResponse(t: Tree, errorDa: NodeId, head: seq<Pair>): (w: Written)
    requires Decoded(t, head)
    ensures (forall i :: 0 <= i < |head| ==> head[i].da != errorDa) ==> w == Written(0, ["DONE\n"])
    ensures w.r == 0 || w == Written(-1, [])
  {
    match FindByDa(head, errorDa)
    case None => Written(0, ["DONE\n"])
    case Some(vp) =>
      assert IsDecoded(t, vp);
      var text := ValueText(t.attrs[vp.da].kind, vp.value);
      if |text| >= SET_BUFF then Written(-1, []) else Written(0, [text + "\n"])
  }

  /** When the first pair of the error attribute is `head[i]`: the set
    * response succeeds exactly when its printed value fits the buffer, and
    * then the line written reads back as that value. */
  lemma SetResponseReadsBack(t: Tree, errorDa: NodeId, head: seq<Pair>, i: nat)
    requires Decoded(t, head) && i < |head| && head[i].da == errorDa
    requires forall j :: 0 <= j < i ==> head[j].da != errorDa
    requires t.attrs[errorDa].kind != Tlv
    ensures var w := SetResponse(t, errorDa, head);
            && (w.r == 0 <==> |ValueText(t.attrs[errorDa].kind, head[i].value)| < SET_BUFF)
            && (w.r == 0 ==> |w.out| == 1 && |w.out[0]| > 0 && w.out[0][|w.out[0]| - 1] == '\n'
                             && ParseValue(t.attrs[errorDa].kind, w.out[0][..|w.out[0]| - 1]) == Some(head[i].value))
  {
    FindByDaFirst(head, errorDa, i);
    assert IsDecoded(t, head[i]);
    ParseValueText(t.attrs[errorDa].kind, head[i].value);
    var line := ValueText(t.attrs[errorDa].kind, head[i].value) + "\n";
    assert line[..|line| - 1] == ValueText(t.attrs[errorDa].kind, head[i].value);
  }

  /** fr_pair_find_by_da finds the first pair of the attribute. */
  lemma {:induction false} FindByDaFirst(vps: seq<Pair>, da: NodeId, i: nat)
    requires i < |vps| && vps[i].da == da && forall j :: 0 <= j < i ==> vps[j].da != da
    ensures FindByDa(vps, da) == Some(vps[i])
    decreases i
  {
    if i > 0 {
      FindByDaFirst(vps[1..], da, i - 1);
    }
  }
}

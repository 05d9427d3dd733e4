/** Attribute values and value pairs (VALUE_PAIR), with the text conversions of
  * fr_pair_value_snprint and fr_pair_value_from_str that radsnmp calls. Those two
  * library functions are not part of this model's sources: integers print and
  * parse as unsigned decimal, string values are their raw characters, octets
  * print as "0x" and lower-case hex and parse from that form or verbatim, and
  * values of the remaining scalar types carry their own printed text. */
module Pairs {
  import opened Wrappers
  import opened Text
  import opened Dict

  /** A pair's value: vp_integer, vp_strvalue/vp_length, or another scalar. */
  datatype Value = IntVal(n: nat) | Bytes(b: string) | OtherVal(text: string)

  /** A VALUE_PAIR: its dictionary attribute and its value. */
  datatype Pair = Pair(da: NodeId, value: Value)

  /** The value is of the form an attribute of kind `k` holds. */
  predicate WellTyped(k: AttrType, v: Value)
  {
    match k
    case Integer => v.IntVal? && v.n < UINT32
    case String => v.Bytes?
    case Octets => v.Bytes? && forall i :: 0 <= i < |v.b| ==> v.b[i] as int < 256
    case Other => v.OtherVal?
    case Tlv => false
  }

  /** Lower-case hex digit of a nibble. */
  function HexChar(d: nat): (c: char)
    requires d < 16
    ensures HexDigit(c) == Some(d)
  {
    if d < 10 then ('0' as int + d) as char else ('a' as int + d - 10) as char
  }

  function HexText(b: string): (r: string)
    requires forall i :: 0 <= i < |b| ==> b[i] as int < 256
    ensures |r| == 2 * |b|
  {
    if b == [] then []
    else [HexChar(b[0] as int / 16), HexChar(b[0] as int % 16)] + HexText(b[1..])
  }

  function HexDigit(c: char): Option<nat>
  {
    if '0' <= c <= '9' then Some(c as int - '0' as int)
    else if 'a' <= c <= 'f' then Some(c as int - 'a' as int + 10)
    else if 'A' <= c <= 'F' then Some(c as int - 'A' as int + 10)
    else None
  }

  function HexDecode(s: string): Option<string>
  {
    if s == [] then Some([])
    else if |s| == 1 then None
    else
      match (HexDigit(s[0]), HexDigit(s[1]), HexDecode(s[2..]))
      case (Some(h), Some(l), Some(rest)) => Some([(16 * h + l) as char] + rest)
      case _ => None
  }

  lemma {:induction false} HexDecodeText(b: string)
    requires forall i :: 0 <= i < |b| ==> b[i] as int < 256
    ensures HexDecode(HexText(b)) == Some(b)
  {
    if b != [] {
      var r := HexText(b);
      assert r[2..] == HexText(b[1..]);
      HexDecodeText(b[1..]);
      var x := b[0] as int;
      assert 16 * (x / 16) + x % 16 == x;
      assert [b[0]] + b[1..] == b;
    }
  }

  /** fr_pair_value_snprint(..., quote '\0') for an attribute of kind `k`. */
  function ValueText(k: AttrType, v: Value): string
  {
    match v
    case IntVal(n) => NatText(n)
    case Bytes(b) =>
      if k == Octets && forall i :: 0 <= i < |b| ==> b[i] as int < 256 then "0x" + HexText(b) else b
    case OtherVal(text) => text
  }

  /** fr_pair_value_from_str for an attribute of kind `k`: None when `s` is not a
    * value of that kind. */
  function ParseValue(k: AttrType, s: string): (r: Option<Value>)
    ensures r.Some? ==> WellTyped(k, r.value)
  {
    match k
    case Integer =>
      if s != [] && AllDigits(s) && DigitsValue(s) < UINT32 then Some(IntVal(DigitsValue(s))) else None
    case String => Some(Bytes(s))
    case Octets =>
      if |s| >= 2 && s[..2] == "0x" then
        match HexDecode(s[2..])
        case None => None
        case Some(b) => HexDecodeBytes(s[2..]); Some(Bytes(b))
      else if forall i :: 0 <= i < |s| ==> s[i] as int < 256 then Some(Bytes(s))
      else None
    case Other => Some(OtherVal(s))
    case Tlv => None
  }

  lemma {:induction false} HexDecodeBytes(s: string)
    requires HexDecode(s).Some?
    ensures forall i :: 0 <= i < |HexDecode(s).value| ==> HexDecode(s).value[i] as int < 256
    decreases |s|
  {
    if s != [] {
      HexDecodeBytes(s[2..]);
    }
  }

  /** Printing a well-typed value and parsing the text back gives the value. */
  lemma ParseValueText(k: AttrType, v: Value)
    requires WellTyped(k, v)
    ensures ParseValue(k, ValueText(k, v)) == Some(v)
  {
    match k
    case Integer => DigitsValueNatText(v.n);
    case Octets =>
      var s := ValueText(k, v);
      assert s[..2] == "0x" && s[2..] == HexText(v.b);
      HexDecodeText(v.b);
    case String =>
    case Other =>
  }

  /** The value radsnmp gives a leaf when no value string is supplied: one zero
    * byte for string and octets, zero for everything else. */
  function Placeholder(k: AttrType): Value
  {
    match k
    case String => Bytes("\0")
    case Octets => Bytes("\0")
    case Integer => IntVal(0)
    case _ => OtherVal("")
  }

  /** fr_pair_find_by_da: the first pair of attribute `da`. */
  function FindByDa(vps: seq<Pair>, da: NodeId): (r: Option<Pair>)
    ensures r.Some? ==> r.value.da == da && r.value in vps
    ensures r.None? <==> forall i :: 0 <= i < |vps| ==> vps[i].da != da
    ensures r.Some? ==> exists i :: 0 <= i < |vps| && vps[i] == r.value
                                   && forall j :: 0 <= j < i ==> vps[j].da != da
  {
    if vps == [] then None
    else if vps[0].da == da then
      assert vps[0] == vps[0];
      Some(vps[0])
    else
      var r := FindByDa(vps[1..], da);
      if r.Some? then
        var i :| 0 <= i < |vps[1..]| && vps[1..][i] == r.value && forall j :: 0 <= j < i ==> vps[1..][j].da != da;
        assert vps[i + 1] == r.value;
        r
      else r
  }
}

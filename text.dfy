/** Character-level helpers: decimal numbers as printed with "%u" and "%i",
  * dotted OID text, and ASCII case folding as used by strcasecmp. */
module Text {
  import opened Wrappers

  /** 2^32: the range of a C `unsigned int` / `uint32_t`. */
  const UINT32: nat := 0x1_0000_0000
  /** 2^31: the first `uint32_t` that "%i" prints as a negative number. */
  const INT32: nat := 0x8000_0000

  predicate IsDigit(c: char) { '0' <= c <= '9' }

  predicate AllDigits(s: string) { forall i :: 0 <= i < |s| ==> IsDigit(s[i]) }

  /** Decimal text of a natural number, without leading zeros ("%u"). */
  function NatText(n: nat): (r: string)
    ensures |r| > 0 && AllDigits(r)
    ensures n < 10 <==> |r| == 1
    decreases n
  {
    if n < 10 then [('0' as int + n) as char]
    else NatText(n / 10) + [('0' as int + n % 10) as char]
  }

  /** Value of a string of decimal digits. */
  function DigitsValue(s: string): nat
    requires AllDigits(s)
  {
    if s == [] then 0
    else 10 * DigitsValue(s[..|s| - 1]) + (s[|s| - 1] as int - '0' as int)
  }

  /** Printing a number and reading it back gives the number. */
  lemma {:induction false} DigitsValueNatText(n: nat)
    ensures DigitsValue(NatText(n)) == n
    decreases n
  {
    var r := NatText(n);
    if n >= 10 {
      DigitsValueNatText(n / 10);
      assert r[..|r| - 1] == NatText(n / 10);
    }
  }

  /** Text of a `uint32_t` printed with "%i": values from 2^31 on print as negative. */
  function Int32Text(n: nat): (r: string)
    requires n < UINT32
  {
    if n < INT32 then NatText(n) else "-" + NatText(UINT32 - n)
  }

  /** "%i" agrees with "%u" exactly below 2^31. */
  lemma Int32TextIsNatText(n: nat)
    requires n < UINT32
    ensures Int32Text(n) == NatText(n) <==> n < INT32
  {
    if n >= INT32 {
      assert Int32Text(n)[0] == '-';
      assert IsDigit(NatText(n)[0]);
    }
  }

  /** Scans the digits of one OID component from `i` on, `acc` being the value
    * of the digits before `i`. */
  function ScanComponent(s: string, i: nat, acc: nat): (r: Option<(nat, nat)>)
    requires i <= |s|
    ensures r.Some? ==> 0 < r.value.1 <= |s| && r.value.0 < UINT32
                        && (r.value.1 < |s| ==> s[r.value.1] == '.')
    decreases |s| - i
  {
    if i < |s| && IsDigit(s[i]) then ScanComponent(s, i + 1, 10 * acc + (s[i] as int - '0' as int))
    else if i == 0 || (i < |s| && s[i] != '.') || acc >= UINT32 then None
    else Some((acc, i))
  }

  /** One OID component at the start of `s` (fr_dict_oid_component): a run of
    * decimal digits that ends the text or is followed by '.', whose value fits an
    * `unsigned int`. Gives the value and the number of digits. */
  function Component(s: string): (r: Option<(nat, nat)>)
    ensures r.Some? ==> 0 < r.value.1 <= |s| && r.value.0 < UINT32
                        && (r.value.1 < |s| ==> s[r.value.1] == '.')
  {
    ScanComponent(s, 0, 0)
  }

  /** Scanning a printed number that is followed by a non-digit. */
  lemma {:induction false} ScanNumber(s: string, d: string, i: nat, acc: nat)
    requires AllDigits(d) && |d| <= |s| && s[..|d|] == d
    requires |d| == |s| || !IsDigit(s[|d|])
    requires i <= |d| && acc == DigitsValue(d[..i])
    ensures ScanComponent(s, i, acc) == ScanComponent(s, |d|, DigitsValue(d))
    decreases |d| - i
  {
    if i < |d| {
      assert s[i] == d[i];
      assert d[..i + 1][..i] == d[..i];
      ScanNumber(s, d, i + 1, 10 * acc + (s[i] as int - '0' as int));
    } else {
      assert d[..i] == d;
    }
  }

  /** The component at the start of a printed number followed by '.' or nothing. */
  lemma ComponentOfNumber(n: nat, rest: string)
    requires n < UINT32
    requires rest == [] || rest[0] == '.'
    ensures Component(NatText(n) + rest) == Some((n, |NatText(n)|))
  {
    var d := NatText(n);
    var s := d + rest;
    assert s[..|d|] == d;
    assert d[..0] == [];
    ScanNumber(s, d, 0, 0);
    DigitsValueNatText(n);
  }

  /** Dotted text of a sequence of attribute numbers: "1.2.3". */
  function OidText(ns: seq<nat>): string
  {
    if ns == [] then []
    else if |ns| == 1 then NatText(ns[0])
    else NatText(ns[0]) + "." + OidText(ns[1..])
  }

  /** OID text is made of digits and dots only. */
  lemma {:induction false} OidTextChars(ns: seq<nat>)
    ensures forall i :: 0 <= i < |OidText(ns)| ==> IsDigit(OidText(ns)[i]) || OidText(ns)[i] == '.'
  {
    if |ns| > 1 {
      OidTextChars(ns[1..]);
      var a, b := NatText(ns[0]), OidText(ns[1..]);
      assert OidText(ns) == a + "." + b;
      forall i | 0 <= i < |OidText(ns)|
        ensures IsDigit(OidText(ns)[i]) || OidText(ns)[i] == '.'
      {
        if i > |a| {
          assert OidText(ns)[i] == b[i - |a| - 1];
        }
      }
    }
  }

  /** Each number of `ns` followed by a '.', in front of `rest`. */
  function Dotted(ns: seq<nat>, rest: string): (r: string)
    ensures |r| >= |rest|
  {
    if ns == [] then rest else NatText(ns[0]) + "." + Dotted(ns[1..], rest)
  }

  /** The dotted text ends with `rest`. */
  lemma {:induction false} DottedSuffix(ns: seq<nat>, rest: string)
    ensures var r := Dotted(ns, rest);
            r[|r| - |rest|..] == rest
    decreases |ns|
  {
    if ns != [] {
      var d := Dotted(ns[1..], rest);
      var r := Dotted(ns, rest);
      DottedSuffix(ns[1..], rest);
      assert r[|r| - |rest|..] == d[|d| - |rest|..];
    }
  }

  /** The text of a number list with a non-empty tail is its head dotted in
    * front of the tail's text. */
  lemma {:induction false} OidTextDotted(a: seq<nat>, b: seq<nat>)
    requires b != []
    ensures OidText(a + b) == Dotted(a, OidText(b))
    decreases |a|
  {
    if a != [] {
      var ab := a + b;
      assert ab[0] == a[0] && ab[1..] == a[1..] + b;
      OidTextDotted(a[1..], b);
    } else {
      assert a + b == b;
    }
  }

  /** The text of two non-empty number lists joined is their texts joined by '.'. */
  lemma {:induction false} OidTextConcat(a: seq<nat>, b: seq<nat>)
    requires a != [] && b != []
    ensures OidText(a + b) == OidText(a) + "." + OidText(b)
    decreases |a|
  {
    var ab := a + b;
    assert ab[0] == a[0] && ab[1..] == a[1..] + b;
    if |a| > 1 {
      OidTextConcat(a[1..], b);
    } else {
      assert a[1..] + b == b;
    }
  }

  /** Splits dotted text into its components; None if any component is malformed. */
  function ParseOid(s: string): (r: Option<seq<nat>>)
    ensures r.Some? ==> r.value != []
    decreases |s|
  {
    match Component(s)
    case None => None
    case Some((n, k)) =>
      if k == |s| then Some([n])
      else
        match ParseOid(s[k + 1..])
        case None => None
        case Some(ns) => Some([n] + ns)
  }

  /** Dotted OID text reads back as the numbers it was printed from. */
  lemma {:induction false} ParseOidText(ns: seq<nat>)
    requires ns != []
    requires forall i :: 0 <= i < |ns| ==> ns[i] < UINT32
    ensures ParseOid(OidText(ns)) == Some(ns)
    decreases |ns|
  {
    var d := NatText(ns[0]);
    if |ns| == 1 {
      ComponentOfNumber(ns[0], []);
      assert d + [] == d;
      assert ns == [ns[0]];
    } else {
      var s := OidText(ns);
      var rest := "." + OidText(ns[1..]);
      assert s == d + rest;
      ComponentOfNumber(ns[0], rest);
      assert s[|d| + 1..] == OidText(ns[1..]);
      ParseOidText(ns[1..]);
      assert [ns[0]] + ns[1..] == ns;
    }
  }

  /** ASCII lower case, as strcasecmp compares. */
  function Lower(c: char): char
  {
    if 'A' <= c <= 'Z' then (c as int + 32) as char else c
  }

  /** strcasecmp(a, b) == 0 */
  predicate EqualsIgnoreCase(a: string, b: string)
  {
    |a| == |b| && forall i :: 0 <= i < |a| ==> Lower(a[i]) == Lower(b[i])
  }
}

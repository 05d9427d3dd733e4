/** The radsnmp configuration (radsnmp_conf_t) and request allocation
  * (radsnmp_alloc): the 1-byte request id counter. */
module Packet {
  import opened Dict
  import opened Pairs

  /** A RADIUS request under construction: its id, code and attribute list. */
  class Request {
    var id: nat
    var code: nat
    var vps: seq<Pair>

    constructor (id: nat, code: nat)
      ensures this.id == id && this.code == code && vps == []
    {
      this.id := id;
      this.code := code;
      vps := [];
    }
  }

  /** The id that follows `id` in the 8-bit counter: (id + 1) & UINT8_MAX,
    * which for an id below 256 wraps 255 round to 0. */
  function NextId(id: nat): (r: nat)
    requires id < 256
    ensures r < 256 && r != id
  {
    if id == 255 then 0 else id + 1
  }

  /** NextId is the masked increment. */
  lemma NextIdMasks(id: nat)
    requires id < 256
    ensures NextId(id) == (id + 1) % 256
  {
  }

  /** The counter after `n` allocations starting from `id`. */
  function IdAfter(id: nat, n: nat): (r: nat)
    requires id < 256
    ensures r < 256
  {
    if n == 0 then id else NextId(IdAfter(id, n - 1))
  }

  /** After `n` allocations the counter has moved on by `n`, modulo 256. */
  lemma {:induction false} IdAfterIsSum(id: nat, n: nat)
    requires id < 256
    ensures IdAfter(id, n) == (id + n) % 256
  {
    if n > 0 {
      var m := id + n - 1;
      IdAfterIsSum(id, n - 1);
      ModSucc(m);
      NextIdMasks(m % 256);
      assert IdAfter(id, n) == NextId(m % 256);
      assert m + 1 == id + n;
    }
  }

  /** Moving on by one, then by `p`, is moving on by `p + 1`. */
  lemma {:induction false} IdAfterShift(id: nat, p: nat)
    requires id < 256
    ensures IdAfter(NextId(id), p) == IdAfter(id, p + 1)
  {
    if p > 0 {
      IdAfterShift(id, p - 1);
    }
  }

  /** The same, counted modulo 256. */
  lemma NextIdPlus(id: nat, p: nat)
    requires id < 256
    ensures (NextId(id) + p) % 256 == (id + 1 + p) % 256
  {
    var x := id + 1;
    NextIdMasks(id);
    assert NextId(id) == x % 256;
    var q := x / 256;
    assert x == 256 * q + x % 256;
    assert x + p == (x % 256 + p) + 256 * q;
  }

  lemma ModSucc(m: nat)
    ensures (m + 1) % 256 == if m % 256 == 255 then 0 else m % 256 + 1
  {
    var q, r := m / 256, m % 256;
    assert m == 256 * q + r;
    if r == 255 {
      assert m + 1 == 256 * (q + 1);
    } else {
      assert m + 1 == 256 * q + (r + 1);
    }
  }

  /** 256 allocations bring the counter back to where it started, and no fewer do. */
  lemma IdWrapsAfter256(id: nat, n: nat)
    requires id < 256 && 0 < n <= 256
    ensures IdAfter(id, n) == id <==> n == 256
  {
    IdAfterIsSum(id, n);
  }

  /** The fields of radsnmp_conf_t that the translation and the session use. */
  class Conf {
    var lastUsedId: nat
    const code: nat
    const retries: nat
    const snmpRoot: NodeId
    const snmpOidRoot: NodeId
    const snmpOp: NodeId
    const snmpType: NodeId
    const snmpFailure: NodeId
    const messageAuthenticator: NodeId

    predicate Valid()
      reads this
    {
      lastUsedId < 256
    }

    constructor (code: nat, retries: nat, snmpRoot: NodeId, snmpOidRoot: NodeId, snmpOp: NodeId,
                 snmpType: NodeId, snmpFailure: NodeId, messageAuthenticator: NodeId)
      ensures Valid() && lastUsedId == 0
      ensures this.code == code && this.retries == retries
      ensures this.snmpRoot == snmpRoot && this.snmpOidRoot == snmpOidRoot && this.snmpOp == snmpOp
      ensures this.snmpType == snmpType && this.snmpFailure == snmpFailure
      ensures this.messageAuthenticator == messageAuthenticator
    {
      lastUsedId := 0;
      this.code := code;
      this.retries := retries;
      this.snmpRoot := snmpRoot;
      this.snmpOidRoot := snmpOidRoot;
      this.snmpOp := snmpOp;
      this.snmpType := snmpType;
      this.snmpFailure := snmpFailure;
      this.messageAuthenticator := messageAuthenticator;
    }

    /** radsnmp_alloc: a new empty request carrying the current id; the counter
      * moves on by one, wrapping at 256. */
    method Alloc() returns (request: Request)
      requires Valid()
      modifies this
      ensures Valid() && fresh(request)
      ensures request.id == old(lastUsedId) && request.code == code && request.vps == []
      ensures lastUsedId == NextId(old(lastUsedId))
    {
      request := new Request(lastUsedId, code);
      NextIdMasks(lastUsedId);
      lastUsedId := (lastUsedId + 1) % 256;
    }
  }
}

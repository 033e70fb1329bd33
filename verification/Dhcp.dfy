/** Handing out IPv4 addresses of one network (projects/dhcp/src/dhcp.c): the upper
    `mask` bits of an address are the network, the lower 32 - mask bits the host, in
    the sense of section 3.1 of RFC 4632. */
module Dhcp {
  import opened Wrappers
  import opened Arithmetic
  import opened Bits
  import opened HostSearch
  import opened Trie

  const IPv4_BITS := 32
  const BYTES_IN_IPV4 := 4
  const FIRST_ALLOCATABLE_HOST := 2

  type Address = ip: seq<nat> | |ip| == BYTES_IN_IPV4 && forall i :: 0 <= i < |ip| ==> ip[i] < 256 witness [0, 0, 0, 0]

  /** The address as one number, first byte highest. */
  function Number(ip: seq<nat>): nat {
    if ip == [] then 0 else 256 * Number(ip[..|ip| - 1]) + ip[|ip| - 1]
  }

  lemma NumberBelow(ip: Address)
    ensures Number(ip) == 256 * (256 * (256 * ip[0] + ip[1]) + ip[2]) + ip[3] < 0x1_0000_0000
  {
    assert Number(ip[..1]) == ip[0] by { assert ip[..1][..0] == []; }
    assert Number(ip[..2]) == 256 * ip[0] + ip[1] by { assert ip[..2][..1] == ip[..1]; }
    assert Number(ip[..3]) == 256 * (256 * ip[0] + ip[1]) + ip[2] by { assert ip[..3][..2] == ip[..2]; }
  }

  method ToNumber(ip: Address) returns (n: nat)
    ensures n == Number(ip)
  {
    n := 0;
    for i := 0 to BYTES_IN_IPV4
      invariant n == Number(ip[..i])
    {
      assert ip[..i + 1][..i] == ip[..i];
      n := 256 * n + ip[i];
    }
    assert ip[..BYTES_IN_IPV4] == ip;
  }

  /** The number with its lower bits cleared. */
  function NetworkPart(n: nat, depth: nat): nat {
    ModAtMost(n, Pow2(depth));
    n - n % Pow2(depth)
  }

  /** It is what `& (~0 << depth)` leaves: the bits from `depth` on. */
  lemma NetworkBits(n: nat, depth: nat, i: nat)
    ensures IsBitSet(NetworkPart(n, depth), i) <==> i >= depth && IsBitSet(n, i)
  {
    var q, high := Parts(n, Pow2(depth));
    BitsSplit(high, q, n % Pow2(depth), depth, i);
  }

  /** The remainder is what `& ((1 << depth) - 1)` leaves: the bits below `depth`. */
  lemma HostBits(n: nat, depth: nat, i: nat)
    ensures IsBitSet(n % Pow2(depth), i) <==> i < depth && IsBitSet(n, i)
  {
    var q, high := Parts(n, Pow2(depth));
    BitsSplit(high, q, n % Pow2(depth), depth, i);
  }

  /** The sum of a network and a host is what `|` makes of them: the bits of either. */
  lemma BothBits(n: nat, host: nat, depth: nat, i: nat)
    requires host < Pow2(depth)
    ensures IsBitSet(NetworkPart(n, depth) + host, i) <==> IsBitSet(NetworkPart(n, depth), i) || IsBitSet(host, i)
  {
    var q, high := Parts(n, Pow2(depth));
    BitsSplit(high, q, host, depth, i);
  }

  /** Clears the host bits. */
  method ConvertSubnetToUInt(netip: Address, mask: nat) returns (network: nat)
    requires mask <= IPv4_BITS
    ensures network == NetworkPart(Number(netip), IPv4_BITS - mask)
  {
    var full := ToNumber(netip);
    network := NetworkPart(full, IPv4_BITS - mask);
  }

  /** Keeps the host bits. */
  method ExtractHostFromIp(ip: Address, mask: nat) returns (host: nat)
    requires mask <= IPv4_BITS
    ensures host == Number(ip) % Pow2(IPv4_BITS - mask)
  {
    var n := ToNumber(ip);
    host := n % Pow2(IPv4_BITS - mask);
  }

  /** The bytes of network | host; the two have no bit in common. */
  method BuildFullIp(network: nat, host: nat) returns (result: Address)
    requires network + host < 0x1_0000_0000
    ensures Number(result) == network + host
  {
    var full := network + host;
    var bytes := new nat[BYTES_IN_IPV4];
    ghost var whole := full;
    for i := 0 to BYTES_IN_IPV4
      invariant full == ShiftedBytes(whole, i)
      invariant forall k :: BYTES_IN_IPV4 - i <= k < BYTES_IN_IPV4 ==> bytes[k] == ShiftedBytes(whole, BYTES_IN_IPV4 - 1 - k) % 256
    {
      bytes[BYTES_IN_IPV4 - 1 - i] := full % 256;
      full := full / 256;
    }
    result := bytes[..];
    BytesSpell(whole, result);
  }

  /** value >> (8 * bytes) */
  function ShiftedBytes(value: nat, bytes: nat): nat {
    if bytes == 0 then value else ShiftedBytes(value, bytes - 1) / 256
  }

  lemma BytesSpell(whole: nat, bytes: Address)
    requires whole < 0x1_0000_0000
    requires forall k :: 0 <= k < BYTES_IN_IPV4 ==> bytes[k] == ShiftedBytes(whole, BYTES_IN_IPV4 - 1 - k) % 256
    ensures Number(bytes) == whole
  {
    NumberBelow(bytes);
    var w1 := ShiftedBytes(whole, 1);
    var w2 := ShiftedBytes(whole, 2);
    assert ShiftedBytes(whole, 0) == whole && w1 == whole / 256 && w2 == w1 / 256 && ShiftedBytes(whole, 3) == w2 / 256;
  }

  // ---------- the network and the host part ----------

  lemma {:induction false} Pow2Add(a: nat, b: nat)
    ensures Pow2(a + b) == Pow2(a) * Pow2(b)
    decreases a
  {
    if a > 0 {
      Pow2Add(a - 1, b);
      assert Pow2(a) * Pow2(b) == 2 * (Pow2(a - 1) * Pow2(b));
    }
  }

  lemma Pow2Of32()
    ensures Pow2(32) == 0x1_0000_0000
  {
    Pow2Add(8, 8);
    Pow2Add(16, 16);
    assert Pow2(8) == 256;
  }

  /** `k` networks of `p` hosts fill the address space. */
  predicate Fills(k: nat, p: nat) { k * p == 0x1_0000_0000 }

  lemma PowersFill(depth: nat)
    requires depth <= 32
    ensures Fills(Pow2(32 - depth), Pow2(depth))
  {
    Pow2Of32();
    Pow2Add(32 - depth, depth);
  }

  lemma RoundTripIn(n: nat, p: nat, k: nat, host: nat)
    requires host < p && n < 0x1_0000_0000 && Fills(k, p)
    ensures n - n % p + host < 0x1_0000_0000
    ensures (n - n % p + host) % p == host && (n - n % p + host) / p == n / p
  {
    var q := n / p;
    ModUnique(q, p, host);
    assert n == q * p + n % p;
    if q >= k { MulMono(k, q, p); }
    MulMono(q + 1, k, p);
  }

  /** Putting a host number into a network and taking it out again. */
  lemma HostRoundTrip(netip: nat, depth: nat, host: nat)
    requires host < Pow2(depth) && depth <= 32 && netip < 0x1_0000_0000
    ensures var full := NetworkPart(netip, depth) + host;
            full < 0x1_0000_0000 && full % Pow2(depth) == host && full / Pow2(depth) == netip / Pow2(depth)
  {
    PowersFill(depth);
    RoundTripIn(netip, Pow2(depth), Pow2(32 - depth), host);
  }

  // ---------- the address manager ----------

  predicate IsReservedHost(host: nat, depth: nat) {
    host == 0 || host == 1 || host == Pow2(depth) - 1
  }

  function ReservedHosts(depth: nat): set<nat> { {0, 1, Pow2(depth) - 1} }

  // ---------- when a request is refused ----------

  /** Every candidate of the search for `host` is taken. */
  ghost predicate Dry(b: Book, host: nat, depth: nat) { AllTaken(Tried(b.ever, host, depth), b.hosts) }

  /** What a request that finds its host taken gets from the trie first, and loses. */
  ghost function Wasted(b: Book, asks: Option<nat>, depth: nat): Option<nat> {
    if asks.Some? && asks.value in b.hosts then NextHost(b.ever, b.hosts, asks.value, depth) else None
  }

  /** The book after a request: one for a taken host goes on to the lowest allocatable one. */
  ghost function BookAfter(b: Book, asks: Option<nat>, depth: nat): Book {
    if asks.None? then Asked(b, FIRST_ALLOCATABLE_HOST, depth)
    else if asks.value in b.hosts && !Dry(b, asks.value, depth) then Asked(Asked(b, asks.value, depth), FIRST_ALLOCATABLE_HOST, depth)
    else Asked(b, asks.value, depth)
  }

  /** A request gets nothing exactly if the candidates of the host that it names are all taken, or,
      once one of them has been wasted, those of the lowest allocatable host. */
  ghost predicate Refused(b: Book, asks: Option<nat>, depth: nat) {
    if asks.None? then Dry(b, FIRST_ALLOCATABLE_HOST, depth)
    else asks.value in b.hosts && (Dry(b, asks.value, depth) || Dry(Asked(b, asks.value, depth), FIRST_ALLOCATABLE_HOST, depth))
  }

  /** The status, the host given and the book after a request. */
  ghost predicate Outcome(b: Book, asks: Option<nat>, depth: nat, status: Status, host: nat, wasted: Option<nat>, after: Book) {
    && (status == SUCCESS || status == IP_OCCUPIED_ALLOCATED_ANOTHER || status == NO_IP_AVAILABLE)
    && (status == SUCCESS <==> asks.Some? && asks.value !in b.hosts)
    && (status == SUCCESS ==> host == asks.value)
    && (status == NO_IP_AVAILABLE <==> Refused(b, asks, depth))
    && (status != NO_IP_AVAILABLE ==> host < Pow2(depth) && host !in b.hosts)
    && wasted == Wasted(b, asks, depth)
    && after == BookAfter(b, asks, depth)
    && after.hosts == b.hosts + (if status == NO_IP_AVAILABLE then {} else {host}) + (if wasted.Some? then {wasted.value} else {})
  }

  lemma OutcomeOf(b: Book, asks: Option<nat>, depth: nat, status: Status, host: nat, same: nat, wasted: Option<nat>, after: Book)
    requires Outcome(b, asks, depth, status, host, wasted, after) && (status != NO_IP_AVAILABLE ==> same == host)
    ensures Outcome(b, asks, depth, status, same, wasted, after)
  {}

  lemma OutcomeGives(b: Book, asks: Option<nat>, depth: nat, status: Status, host: nat, wasted: Option<nat>, after: Book)
    requires Outcome(b, asks, depth, status, host, wasted, after)
    ensures status != NO_IP_AVAILABLE <==> status == SUCCESS || status == IP_OCCUPIED_ALLOCATED_ANOTHER
    ensures status != NO_IP_AVAILABLE ==> host < Pow2(depth) && host !in b.hosts && host in after.hosts
    ensures b.hosts <= after.hosts
  {}

  /** The answer to a request, from its bytes: a host that is neither reserved nor taken is given as
      asked for, and otherwise the status is another one; 0.0.0.0 and the reserved hosts 0, 1 and
      the highest cost one host at most, the one that is given. */
  predicate Served(hosts: set<nat>, requested: Address, depth: nat, status: Status, ip: Address, after: set<nat>) {
    var host, given := Number(requested) % Pow2(depth), Number(ip) % Pow2(depth);
    if requested == [0, 0, 0, 0] || host == 0 || host == 1 || host == Pow2(depth) - 1 then
      && (status == NO_IP_AVAILABLE || status == IP_OCCUPIED_ALLOCATED_ANOTHER)
      && after == if status == NO_IP_AVAILABLE then hosts else hosts + {given}
    else if host in hosts then
      && (status == NO_IP_AVAILABLE || status == IP_OCCUPIED_ALLOCATED_ANOTHER)
      && hosts <= after
    else status == SUCCESS && given == host && after == hosts + {host}
  }

  lemma OutcomeServes(b: Book, requested: Address, asks: Option<nat>, depth: nat, status: Status, ip: Address, wasted: Option<nat>, after: Book)
    requires asks == if requested == [0, 0, 0, 0] || IsReservedHost(Number(requested) % Pow2(depth), depth) then None else Some(Number(requested) % Pow2(depth))
    requires Outcome(b, asks, depth, status, Number(ip) % Pow2(depth), wasted, after)
    ensures Served(b.hosts, requested, depth, status, ip, after.hosts)
  {}

  /** Addresses with the same number are the same. */
  lemma NumberInjective(a: Address, b: Address)
    requires Number(a) == Number(b)
    ensures a == b
  {
    NumberBelow(a);
    NumberBelow(b);
    LastByte(256 * (256 * a[0] + a[1]) + a[2], a[3], 256 * (256 * b[0] + b[1]) + b[2], b[3]);
    LastByte(256 * a[0] + a[1], a[2], 256 * b[0] + b[1], b[2]);
    LastByte(a[0], a[1], b[0], b[1]);
  }

  lemma LastByte(m: nat, x: nat, n: nat, y: nat)
    requires 256 * m + x == 256 * n + y && x < 256 && y < 256
    ensures m == n && x == y
  {}

  lemma DivMod(x: nat, p: nat)
    requires p > 0
    ensures x == p * (x / p) + x % p
  {}

  lemma SameNumber(a: Address, b: Address, p: nat)
    requires p > 0
    ensures Number(a) / p == Number(b) / p && Number(a) % p == Number(b) % p ==> a == b
  {
    DivMod(Number(a), p);
    DivMod(Number(b), p);
    if Number(a) / p == Number(b) / p && Number(a) % p == Number(b) % p { NumberInjective(a, b); }
  }

  lemma AskedMeaning(b: Book, host: nat, depth: nat)
    requires host < Pow2(depth)
    ensures Dry(b, host, depth) <==> NextHost(b.ever, b.hosts, host, depth) == None
    ensures Dry(b, host, depth) ==> Asked(b, host, depth) == b
    ensures match NextHost(b.ever, b.hosts, host, depth)
            case None => host in b.hosts
            case Some(h) => h !in b.hosts && Asked(b, host, depth) == Book(b.ever + {h}, b.hosts + {h}) && FoundIn(Tried(b.ever, host, depth), b.hosts, h)
  {
    NextHostIsFirstFree(b.ever, b.hosts, host, depth);
    NextHostMeaning(b.ever, b.hosts, host, depth, depth);
  }

  class Dhcp {
    const trie: Trie
    const network: nat
    const depth: nat
    /** The number of the address the manager was created with. */
    ghost const netip: nat
    /** The hosts handed out to callers and not given back since. */
    ghost var held: set<nat>

    ghost predicate Valid()
      reads this, trie, trie.Repr
    {
      && 2 <= depth <= 30 && trie.depth == depth && trie.Valid()
      && netip < 0x1_0000_0000 && network == NetworkPart(netip, depth)
      && ReservedHosts(depth) <= trie.Hosts()
      && held <= trie.Hosts() && held !! ReservedHosts(depth)
    }

    constructor (netip: Address, mask: nat)
      requires 2 <= IPv4_BITS - mask <= 30
      ensures Valid() && fresh(trie) && fresh(trie.Repr)
      ensures depth == IPv4_BITS - mask && this.netip == Number(netip)
      ensures trie.Book() == Book(ReservedHosts(depth), ReservedHosts(depth)) && held == {}
      ensures trie.Hosts() == {0, 1, Pow2(depth) - 1}
    {
      var net := ConvertSubnetToUInt(netip, mask);
      NumberBelow(netip);
      var t := TrieWithReserved(IPv4_BITS - mask);
      trie, network, depth := t, net, IPv4_BITS - mask;
      this.netip := Number(netip);
      held := {};
    }

    /** The lowest allocatable host or what the trie gives instead; nothing exactly if all
        candidates of the search for that host are taken. */
    method AllocateNextAvailable() returns (status: Status, host: nat)
      requires Valid()
      modifies trie`nodes, trie`Repr, trie`ever, trie.Repr
      ensures Valid() && fresh(trie.Repr - old(trie.Repr)) && trie.Book() == Asked(old(trie.Book()), FIRST_ALLOCATABLE_HOST, depth)
      ensures status == IP_OCCUPIED_ALLOCATED_ANOTHER || status == NO_IP_AVAILABLE
      ensures status == NO_IP_AVAILABLE <==> Dry(old(trie.Book()), FIRST_ALLOCATABLE_HOST, depth)
      ensures status == NO_IP_AVAILABLE ==> trie.Hosts() == old(trie.Hosts())
      ensures status != NO_IP_AVAILABLE ==>
                && host < Pow2(depth) && host !in old(trie.Hosts()) && trie.Hosts() == old(trie.Hosts()) + {host}
                && FoundIn(Tried(old(trie.ever), FIRST_ALLOCATABLE_HOST, depth), old(trie.Hosts()), host)
    {
      Pow2Small(depth);
      status, host := trie.TRIEInsert(FIRST_ALLOCATABLE_HOST);
      if status == SUCCESS || status == IP_OCCUPIED_ALLOCATED_ANOTHER {
        status := IP_OCCUPIED_ALLOCATED_ANOTHER;
      }
    }

    /** The address is in the network, its host was free, not held and not reserved, and is held now. */
    ghost predicate HandedOut(ip: nat, hosts: set<nat>, heldBefore: set<nat>, heldAfter: set<nat>) {
      && ip % Pow2(depth) !in hosts && ip % Pow2(depth) !in heldBefore && !IsReservedHost(ip % Pow2(depth), depth)
      && ip / Pow2(depth) == netip / Pow2(depth)
      && heldAfter == heldBefore + {ip % Pow2(depth)}
    }

    /** What the address asks for: nothing in particular, if it is 0.0.0.0 or names a reserved host. */
    function Asks(requested: Address): Option<nat> {
      var host := Number(requested) % Pow2(depth);
      if requested == [0, 0, 0, 0] || IsReservedHost(host, depth) then None else Some(host)
    }

    /** The part of DHCPAllocateIP for a request that names a host.  `wasted` is a host the trie gave
        in place of a taken one and that nobody receives. */
    method ChooseNamed(requestedHost: nat) returns (status: Status, host: nat, ghost wasted: Option<nat>)
      requires Valid() && requestedHost < Pow2(depth)
      modifies trie`nodes, trie`Repr, trie`ever, trie.Repr
      ensures Valid() && fresh(trie.Repr - old(trie.Repr))
      ensures Outcome(old(trie.Book()), Some(requestedHost), depth, status, host, wasted, trie.Book())
    {
      AskedMeaning(trie.Book(), requestedHost, depth);
      wasted := None;
      status, host := trie.TRIEInsert(requestedHost);
      if status == IP_OCCUPIED_ALLOCATED_ANOTHER {
        wasted := Some(host);
        status, host := AllocateNextAvailable();
      }
    }

    /** The part of DHCPAllocateIP that picks a host. */
    method ChooseHost(requested: Address) returns (status: Status, host: nat, ghost wasted: Option<nat>)
      requires Valid()
      modifies trie`nodes, trie`Repr, trie`ever, trie.Repr
      ensures Valid() && fresh(trie.Repr - old(trie.Repr))
      ensures Outcome(old(trie.Book()), Asks(requested), depth, status, host, wasted, trie.Book())
    {
      var ipZero := requested == [0, 0, 0, 0];
      var requestedHost := ExtractHostFromIp(requested, IPv4_BITS - depth);
      if ipZero || IsReservedHost(requestedHost, depth) {
        wasted := None;
        status, host := AllocateNextAvailable();
      } else {
        status, host, wasted := ChooseNamed(requestedHost);
      }
    }

    /** The end of DHCPAllocateIP: the address of the host that was picked. */
    method Deliver(host: nat, ghost hosts: set<nat>) returns (ip: Address)
      requires Valid() && host < Pow2(depth) && host in trie.Hosts() && host !in hosts && ReservedHosts(depth) <= hosts && held <= hosts
      modifies this`held
      ensures Valid() && Number(ip) % Pow2(depth) == host && HandedOut(Number(ip), hosts, old(held), held)
    {
      HostRoundTrip(netip, depth, host);
      ip := BuildFullIp(network, host);
      held := held + {host};
    }

    method DHCPAllocateIP(requested: Address) returns (status: Status, ip: Address, ghost wasted: Option<nat>)
      requires Valid()
      modifies this`held, trie`nodes, trie`Repr, trie`ever, trie.Repr
      ensures Valid() && fresh(trie.Repr - old(trie.Repr))
      ensures Outcome(old(trie.Book()), Asks(requested), depth, status, Number(ip) % Pow2(depth), wasted, trie.Book())
      ensures if status == NO_IP_AVAILABLE then held == old(held)
              else HandedOut(Number(ip), old(trie.Hosts()), old(held), held)
      ensures Served(old(trie.Hosts()), requested, depth, status, ip, trie.Hosts())
      ensures status == SUCCESS && Number(requested) / Pow2(depth) == netip / Pow2(depth) ==> ip == requested
    {
      var host;
      ip := [0, 0, 0, 0];
      status, host, wasted := ChooseHost(requested);
      OutcomeGives(old(trie.Book()), Asks(requested), depth, status, host, wasted, trie.Book());
      if status == SUCCESS || status == IP_OCCUPIED_ALLOCATED_ANOTHER {
        ip := Deliver(host, old(trie.Hosts()));
      }
      OutcomeOf(old(trie.Book()), Asks(requested), depth, status, host, Number(ip) % Pow2(depth), wasted, trie.Book());
      OutcomeServes(old(trie.Book()), requested, Asks(requested), depth, status, ip, wasted, trie.Book());
      SameNumber(ip, requested, Pow2(depth));
    }

    method DHCPFreeIP(ip: Address) returns (status: Status)
      requires Valid()
      modifies this`held, trie.Repr
      ensures Valid()
      ensures var host := Number(ip) % Pow2(depth);
              && (status == SUCCESS <==> host in old(trie.Hosts()) && !IsReservedHost(host, depth))
              && (if status == SUCCESS then trie.Hosts() == old(trie.Hosts()) - {host} && held == old(held) - {host}
                  else trie.Hosts() == old(trie.Hosts()) && held == old(held))
              && (IsReservedHost(host, depth) ==> status == DOUBLE_FREE)
              && (!IsReservedHost(host, depth) && status != SUCCESS ==> status == if host in trie.ever then DOUBLE_FREE else IP_NOT_FOUND)
              && (host == 0 || host == 1 || host == Pow2(depth) - 1 || host !in old(trie.Hosts()) ==> status != SUCCESS)
    {
      var host := ExtractHostFromIp(ip, IPv4_BITS - depth);
      if IsReservedHost(host, depth) {
        return DOUBLE_FREE;
      }
      status := trie.TRIEFree(host);
      if status == SUCCESS {
        held := held - {host};
      }
    }
  }

  /** The trie that DHCPCreate builds. */
  method TrieWithReserved(depth: nat) returns (trie: Trie)
    requires depth >= 2
    ensures fresh(trie) && fresh(trie.Repr) && trie.Valid() && trie.depth == depth
    ensures trie.Book() == Book(ReservedHosts(depth), ReservedHosts(depth))
  {
    Pow2Small(depth);
    trie := new Trie(depth);
    InsertFree(trie, 0);
    InsertFree(trie, 1);
    InsertFree(trie, Pow2(depth) - 1);
  }

  /** An insertion of a free host, which succeeds. */
  method InsertFree(trie: Trie, host: nat)
    requires trie.Valid() && host < Pow2(trie.depth) && host !in trie.Hosts()
    modifies trie`nodes, trie`Repr, trie`ever, trie.Repr
    ensures trie.Valid() && fresh(trie.Repr - old(trie.Repr))
    ensures trie.Hosts() == old(trie.Hosts()) + {host} && trie.ever == old(trie.ever) + {host}
  {
    AskedMeaning(trie.Book(), host, trie.depth);
    var status, given := trie.TRIEInsert(host);
    assert status == SUCCESS;
  }

  lemma Pow2Small(d: nat)
    requires d >= 2
    ensures Pow2(d) >= 4
    decreases d
  {
  }

  // ---------- what requests for no host in particular can get ----------

  lemma {:induction false} BitsOfTwo(bits: nat)
    ensures Shr(2, bits) == if bits == 0 then 2 else if bits == 1 then 1 else 0
    decreases bits
  {
    if bits > 0 { BitsOfTwo(bits - 1); }
  }

  lemma {:induction false} ClearOfTwo(depth: nat)
    requires depth >= 2
    ensures Clear(FIRST_ALLOCATABLE_HOST, depth) == depth - 1
    decreases depth
  {
    BitsOfTwo(depth - 1);
    if depth > 2 {
      ClearOfTwo(depth - 1);
    } else {
      BitsOfTwo(0);
      assert Clear(FIRST_ALLOCATABLE_HOST, 1) == 1;
    }
  }

  lemma {:induction false} FewElements(s: seq<nat>)
    ensures |Elements(s)| <= |s|
    decreases |s|
  {
    if s != [] {
      FewElements(s[1..]);
      assert Elements(s) == Elements(s[1..]) + {s[0]};
    } else {
      assert Elements(s) == {};
    }
  }

  /** The search for the lowest allocatable host has at most `depth` - 1 candidates that are not reserved. */
  lemma FewCandidates(depth: nat, ever: set<nat>)
    requires depth >= 2
    ensures |Elements(Tried(ever, FIRST_ALLOCATABLE_HOST, depth)) - ReservedHosts(depth)| <= depth - 1
  {
    var s, reserved := Tried(ever, FIRST_ALLOCATABLE_HOST, depth), ReservedHosts(depth);
    Pow2Small(depth);
    ClearOfTwo(depth);
    TriedFew(ever, FIRST_ALLOCATABLE_HOST, depth);
    TriedAscends(ever, FIRST_ALLOCATABLE_HOST, depth, depth);
    var few := if |s| == depth then s[..|s| - 1] else s;
    if |s| == depth { AllSetIsGreatest(s[|s| - 1], depth); }
    FewElements(few);
    forall x | x in Elements(s) - reserved ensures x in Elements(few) {
      var i :| 0 <= i < |s| && s[i] == x;
      assert i < |few| && few[i] == x;
    }
    SubsetSize(Elements(s) - reserved, Elements(few));
  }

  lemma {:induction false} SubsetSize(a: set<nat>, b: set<nat>)
    requires a <= b
    ensures |a| <= |b|
    decreases a
  {
    if a != {} {
      var x :| x in a;
      SubsetSize(a - {x}, b - {x});
    }
  }

  /** However often a fresh manager is asked for 0.0.0.0, it gives out at most `depth` - 1 of its
      2^depth - 3 hosts, and from the request after as many on as there are candidates it refuses. */
  lemma ZeroRequestsRunDry(depth: nat, n: nat)
    requires depth >= 2
    ensures var b, reserved := Book(ReservedHosts(depth), ReservedHosts(depth)), ReservedHosts(depth);
            var after := AskedTimes(b, FIRST_ALLOCATABLE_HOST, depth, n);
            && |after.hosts - reserved| <= depth - 1
            && (n >= depth ==> Refused(after, None, depth))
  {
    var b, reserved := Book(ReservedHosts(depth), ReservedHosts(depth)), ReservedHosts(depth);
    var after, s := AskedTimes(b, FIRST_ALLOCATABLE_HOST, depth, n), Tried(b.ever, FIRST_ALLOCATABLE_HOST, depth);
    AskedStays(b, FIRST_ALLOCATABLE_HOST, depth, n);
    FewCandidates(depth, b.ever);
    SubsetSize(after.hosts - reserved, Elements(s) - reserved);
    if n >= depth {
      ClearOfTwo(depth);
      TriedFew(b.ever, FIRST_ALLOCATABLE_HOST, depth);
      AskedDry(b, FIRST_ALLOCATABLE_HOST, depth, n);
      Pow2Small(depth);
      AskedMeaning(after, FIRST_ALLOCATABLE_HOST, depth);
    }
  }

  lemma BitsOfThree()
    ensures Shr(2, 1) == 1 && Shr(2, 2) == 0 && Shr(2, 3) == 0 && Shr(6, 1) == 3 && Shr(0, 1) == 0 && Shr(1, 1) == 0
    ensures Shr(7, 1) == 3 && Shr(7, 2) == 1 && Shr(7, 3) == 0 && Pow2(0) == 1 && Pow2(2) == 4 && Pow2(3) == 8
  {}

  lemma CandidatesOfThreeBits(ever: set<nat>, host: nat, next: nat, bits: nat)
    requires ever == {0, 1, 7} && host == 2 && next == 6 && bits == 3
    ensures Tried(ever, host, bits) == [host, next, 7]
  {
    BitsOfThree();
    assert !IsPivot(ever, host, 0) && !IsPivot(ever, host, 1);
    assert Agrees(7, host, 2) && Agrees(7, next, 0);
    assert LowestPivot(ever, host, 0, bits) == LowestPivot(ever, host, 1, bits) == LowestPivot(ever, host, 2, bits) == Some(2);
    assert LowestPivot(ever, next, 0, 2) == Some(0);
    assert Tried(ever, next + 1, 0) == [next + 1];
    assert Tried(ever, next, 2) == [next, 7];
  }

  /** A search with three candidates of which the last is taken: two requests get the others, the third none. */
  lemma TwoOfThree(b: Book, host: nat, bits: nat, x: nat, y: nat, z: nat)
    requires OnlyTwoFree(b, host, bits, x, y, z)
    ensures !Dry(b, host, bits) && Asked(b, host, bits) == Book(b.ever + {x}, b.hosts + {x})
    ensures !Dry(Asked(b, host, bits), host, bits)
    ensures Asked(Asked(b, host, bits), host, bits) == Book(b.ever + {x} + {y}, b.hosts + {x} + {y})
    ensures Dry(Asked(Asked(b, host, bits), host, bits), host, bits)
  {
    AskedMeaning(b, host, bits);
    TriedStable(b.ever, x, host, bits);
    var b1 := Asked(b, host, bits);
    AskedMeaning(b1, host, bits);
    TriedStable(b1.ever, y, host, bits);
  }

  /** A request for no host in particular. */
  method AskForAny(dhcp: Dhcp) returns (status: Status)
    requires dhcp.Valid()
    modifies dhcp`held, dhcp.trie`nodes, dhcp.trie`Repr, dhcp.trie`ever, dhcp.trie.Repr
    ensures dhcp.Valid() && fresh(dhcp.trie.Repr - old(dhcp.trie.Repr))
    ensures dhcp.trie.Book() == Asked(old(dhcp.trie.Book()), FIRST_ALLOCATABLE_HOST, dhcp.depth)
    ensures status == if Dry(old(dhcp.trie.Book()), FIRST_ALLOCATABLE_HOST, dhcp.depth) then NO_IP_AVAILABLE else IP_OCCUPIED_ALLOCATED_ANOTHER
  {
    var address;
    ghost var wasted;
    status, address, wasted := dhcp.DHCPAllocateIP([0, 0, 0, 0]);
  }

  method AskTwice(dhcp: Dhcp) returns (first: Status, second: Status)
    requires dhcp.Valid()
    modifies dhcp`held, dhcp.trie`nodes, dhcp.trie`Repr, dhcp.trie`ever, dhcp.trie.Repr
    ensures dhcp.Valid() && fresh(dhcp.trie.Repr - old(dhcp.trie.Repr))
    ensures var b, d := old(dhcp.trie.Book()), dhcp.depth;
            var b1 := Asked(b, FIRST_ALLOCATABLE_HOST, d);
            && dhcp.trie.Book() == Asked(b1, FIRST_ALLOCATABLE_HOST, d)
            && first == (if Dry(b, FIRST_ALLOCATABLE_HOST, d) then NO_IP_AVAILABLE else IP_OCCUPIED_ALLOCATED_ANOTHER)
            && second == (if Dry(b1, FIRST_ALLOCATABLE_HOST, d) then NO_IP_AVAILABLE else IP_OCCUPIED_ALLOCATED_ANOTHER)
  {
    first := AskForAny(dhcp);
    second := AskForAny(dhcp);
  }

  /** Three such requests, of which two can be met. */
  method AskThrice(dhcp: Dhcp, ghost x: nat, ghost y: nat, ghost z: nat) returns (first: Status, second: Status, third: Status)
    requires dhcp.Valid() && OnlyTwoFree(dhcp.trie.Book(), FIRST_ALLOCATABLE_HOST, dhcp.depth, x, y, z)
    modifies dhcp`held, dhcp.trie`nodes, dhcp.trie`Repr, dhcp.trie`ever, dhcp.trie.Repr
    ensures dhcp.Valid() && fresh(dhcp.trie.Repr - old(dhcp.trie.Repr))
    ensures first == second == IP_OCCUPIED_ALLOCATED_ANOTHER && third == NO_IP_AVAILABLE
    ensures dhcp.trie.Book().hosts == old(dhcp.trie.Book()).hosts + {x} + {y}
  {
    ghost var b, host := dhcp.trie.Book(), FIRST_ALLOCATABLE_HOST;
    TwoOfThree(b, host, dhcp.depth, x, y, z);
    first, second := AskTwice(dhcp);
    AskedDryStays(dhcp.trie.Book(), host, dhcp.depth);
    third := AskForAny(dhcp);
  }

  ghost predicate OnlyTwoFree(b: Book, host: nat, depth: nat, x: nat, y: nat, z: nat) {
    host < Pow2(depth) && Tried(b.ever, host, depth) == [x, y, z] && x !in b.hosts && y !in b.hosts && z in b.hosts && x != y
  }

  lemma AskedDryStays(b: Book, host: nat, depth: nat)
    requires Dry(b, host, depth)
    ensures Asked(b, host, depth) == b
  {
    NextHostIsFirstFree(b.ever, b.hosts, host, depth);
  }

  /** A fresh manager with three host bits: the third request for 0.0.0.0 is refused though 3, 4 and 5 are free. */
  method ThirdRequestRefused(netip: Address) returns (dhcp: Dhcp, first: Status, second: Status, third: Status)
    ensures dhcp.Valid() && dhcp.depth == 3
    ensures first == second == IP_OCCUPIED_ALLOCATED_ANOTHER && third == NO_IP_AVAILABLE && dhcp.trie.Hosts() == {0, 1, 2, 6, 7}
  {
    dhcp := new Dhcp(netip, 29);
    ReservedOfThree(dhcp.depth);
    FreshWithThreeBits(dhcp.trie.Book(), FIRST_ALLOCATABLE_HOST, 6, dhcp.depth);
    first, second, third := AskThrice(dhcp, 2, 6, 7);
    FiveHosts(dhcp.trie.Hosts());
  }

  lemma FiveHosts(hosts: set<nat>)
    ensures hosts == {0, 1, 7} + {2} + {6} ==> hosts == {0, 1, 2, 6, 7}
  {}

  lemma ReservedOfThree(depth: nat)
    requires depth == 3
    ensures ReservedHosts(depth) == {0, 1, 7} && Pow2(depth) == 8
  {
    BitsOfThree();
  }

  lemma FreshWithThreeBits(b: Book, host: nat, next: nat, depth: nat)
    requires depth == 3 && host == 2 && next == 6 && b.ever == {0, 1, 7} && b.hosts == {0, 1, 7}
    ensures OnlyTwoFree(b, host, depth, host, next, 7)
  {
    BitsOfThree();
    CandidatesOfThreeBits(b.ever, host, next, depth);
  }
}

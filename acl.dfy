/** The client access list of src/acl.py: a comma-separated list of IPv4
    networks in CIDR notation, each parsed as Python 3.6's `ipaddress`
    parses it in strict mode, and the test whether a client address lies
    in one of them. Addresses are the integers below 2^32; the bitwise
    masks of `ipaddress` are written as the arithmetic they amount to. */
module Acl {
  import opened Text

  /** 2^32: the number of IPv4 addresses. */
  const AddrSpace: int := 0x1_0000_0000

  /** An IPv4 address as its 32-bit unsigned integer. */
  type Addr = a: int | 0 <= a < AddrSpace

  type PrefixLen = p: int | 0 <= p <= 32

  /** `IPv4Network`: the network address and the prefix length. */
  datatype Network = Network(address: Addr, prefix: PrefixLen)

  /** The two `ValueError`s of src/acl.py, with the text they name. */
  datatype AclError = InvalidAcl(item: string) | InvalidAddress(ip: string)

  function Pow2(n: nat): (r: nat)
    ensures r >= 1
  {
    if n == 0 then 1 else 2 * Pow2(n - 1)
  }

  lemma {:induction false} Pow2Add(m: nat, n: nat)
    ensures Pow2(m + n) == Pow2(m) * Pow2(n)
    decreases m
  {
    if m > 0 {
      Pow2Add(m - 1, n);
    }
  }

  /** The number of addresses a prefix length leaves to hosts, 2^(32 - p);
      the host mask is one less. */
  function Block(p: PrefixLen): nat
  {
    Pow2(32 - p)
  }

  /** The netmask of a prefix length as an integer: `p` one bits, then
      32 - p zero bits. */
  function Mask(p: PrefixLen): int
  {
    AddrSpace - Block(p)
  }

  /** No host bits are set (`address & netmask == address`): strict mode
      accepts the network. */
  predicate Aligned(n: Network)
  {
    n.address % Block(n.prefix) == 0
  }

  /** `broadcast_address`: the network address with every host bit set. */
  function Broadcast(n: Network): int
  {
    n.address + Block(n.prefix) - 1
  }

  /** `ip in network` as Python 3.6 tests it: network address <= address
      <= broadcast address. */
  predicate Contains(n: Network, ip: Addr)
  {
    n.address <= ip <= Broadcast(n)
  }

  // ---------------------------------------------------------------------
  // Parsing

  /** `_parse_octet`: one to three ASCII digits, at most 255, and no leading
      zero on a value above 7 (it would read differently as octal). */
  function ParseOctet(s: string): (r: Option<nat>)
    ensures r.Some? <==> s != [] && AllDigits(s) && |s| <= 3
                         && !(DigitsValue(s) > 7 && s[0] == '0') && DigitsValue(s) <= 255
    ensures r.Some? ==> r.value == DigitsValue(s)
  {
    if s == [] || !AllDigits(s) || |s| > 3 then None
    else
      var v := DigitsValue(s);
      if v > 7 && s[0] == '0' then None
      else if v > 255 then None
      else Some(v)
  }

  /** The address with these four octets, most significant first. */
  function Compose(o0: nat, o1: nat, o2: nat, o3: nat): Addr
    requires o0 <= 255 && o1 <= 255 && o2 <= 255 && o3 <= 255
  {
    ((o0 * 256 + o1) * 256 + o2) * 256 + o3
  }

  /** `_ip_int_from_string`: a non-empty text of four dot-separated
      octets. */
  function ParseAddress(s: string): (r: Option<Addr>)
    ensures r.Some? <==> s != [] && |Split(s, '.')| == 4
                         && forall k :: 0 <= k < 4 ==> ParseOctet(Split(s, '.')[k]).Some?
  {
    if s == [] then None
    else
      var parts := Split(s, '.');
      if |parts| != 4 then None
      else
        match (ParseOctet(parts[0]), ParseOctet(parts[1]), ParseOctet(parts[2]), ParseOctet(parts[3]))
        case (Some(a), Some(b), Some(c), Some(d)) => Some(Compose(a, b, c, d))
        case _ => None
  }

  /** `_prefix_from_prefix_string`: ASCII digits with a value of at most 32
      (leading zeros allowed). */
  function ParsePrefixLength(s: string): (r: Option<PrefixLen>)
    ensures r.Some? ==> s != [] && AllDigits(s) && r.value == DigitsValue(s)
    ensures r.None? ==> s == [] || !AllDigits(s) || DigitsValue(s) > 32
  {
    if s != [] && AllDigits(s) && DigitsValue(s) <= 32 then Some(DigitsValue(s)) else None
  }

  function FindPrefix(m: int, p: nat): (r: Option<PrefixLen>)
    requires p <= 33
    ensures r.Some? ==> p <= r.value && Mask(r.value) == m
    ensures r.None? ==> forall q: PrefixLen :: p <= q ==> Mask(q) != m
    decreases 33 - p
  {
    if p == 33 then None else if Mask(p) == m then Some(p) else FindPrefix(m, p + 1)
  }

  /** `_prefix_from_ip_int`: the prefix length whose netmask is `m`, if
      `m` is ones followed by zeros. */
  function PrefixOfMask(m: Addr): (r: Option<PrefixLen>)
    ensures r.Some? ==> Mask(r.value) == m
    ensures r.None? ==> forall q: PrefixLen :: Mask(q) != m
  {
    FindPrefix(m, 0)
  }

  /** `_prefix_from_ip_string`: a dotted netmask, or else a dotted hostmask
      (the netmask with every bit inverted, `m ^ ALL_ONES`). */
  function PrefixOfDotted(s: string): (r: Option<PrefixLen>)
    ensures r.Some? ==> ParseAddress(s).Some?
                        && (Mask(r.value) == ParseAddress(s).value
                            || Mask(r.value) == AddrSpace - 1 - ParseAddress(s).value)
    ensures ParseAddress(s).Some? && r.None? ==>
              forall q: PrefixLen :: Mask(q) != ParseAddress(s).value
                                     && Mask(q) != AddrSpace - 1 - ParseAddress(s).value
  {
    match ParseAddress(s)
    case None => None
    case Some(m) =>
      match PrefixOfMask(m)
      case Some(p) => Some(p)
      case None => PrefixOfMask(AddrSpace - 1 - m)
  }

  /** `_make_netmask` on the text after the `/`: a prefix length, or else a
      netmask or hostmask. */
  function ParseNetmask(s: string): (r: Option<PrefixLen>)
    ensures ParsePrefixLength(s).Some? ==> r == ParsePrefixLength(s)
    ensures ParsePrefixLength(s).None? ==> r == PrefixOfDotted(s)
  {
    if ParsePrefixLength(s).Some? then ParsePrefixLength(s) else PrefixOfDotted(s)
  }

  /** `IPv4Network(item)` in strict mode: an address, optionally `/` and a
      prefix length, netmask or hostmask (32 when absent); more than one
      `/`, a bad part, or host bits set under the mask are errors. */
  function ParseNetwork(item: string): (r: Option<Network>)
    ensures r.Some? ==> Aligned(r.value) && |Split(item, '/')| <= 2
    ensures r.Some? ==> ParseAddress(Split(item, '/')[0]) == Some(r.value.address)
    ensures r.Some? && |Split(item, '/')| == 1 ==> r.value.prefix == 32
    ensures r.Some? && |Split(item, '/')| == 2 ==> ParseNetmask(Split(item, '/')[1]) == Some(r.value.prefix)
  {
    var parts := Split(item, '/');
    if |parts| > 2 then None
    else
      match ParseAddress(parts[0])
      case None => None
      case Some(a) =>
        var prefix := if |parts| == 1 then Some(32) else ParseNetmask(parts[1]);
        match prefix
        case None => None
        case Some(p) => if a % Block(p) != 0 then None else Some(Network(a, p))
  }

  /** The networks of the split items, in order, or the first item that is
      not a network: the loop of `ACL.__init__`, one item at a time. */
  function ParseItems(items: seq<string>): (r: Result<seq<Network>, AclError>)
    ensures r.Ok? ==> |r.value| == |items|
                      && forall k :: 0 <= k < |items| ==> ParseNetwork(items[k]) == Some(r.value[k])
    ensures r.Err? ==> exists k :: 0 <= k < |items| && r.error == InvalidAcl(items[k])
                                   && ParseNetwork(items[k]).None?
                                   && forall j :: 0 <= j < k ==> ParseNetwork(items[j]).Some?
  {
    if items == [] then Ok([])
    else
      var last := |items| - 1;
      match ParseItems(items[..last])
      case Err(e) =>
        ParseItemsErrStep(items, e);
        Err(e)
      case Ok(ns) =>
        match ParseNetwork(items[last])
        case None =>
          ParseItemsLastStep(items, ns);
          Err(InvalidAcl(items[last]))
        case Some(n) =>
          ParseItemsOkStep(items, ns, n);
          Ok(ns + [n])
  }

  /** An error among all items but the last is an error of all of them. */
  lemma ParseItemsErrStep(items: seq<string>, e: AclError)
    requires items != []
    requires var init := items[..|items| - 1];
             exists k :: 0 <= k < |init| && e == InvalidAcl(init[k]) && ParseNetwork(init[k]).None?
                         && forall j :: 0 <= j < k ==> ParseNetwork(init[j]).Some?
    ensures exists k :: 0 <= k < |items| && e == InvalidAcl(items[k]) && ParseNetwork(items[k]).None?
                        && forall j :: 0 <= j < k ==> ParseNetwork(items[j]).Some?
  {
    var init := items[..|items| - 1];
    var k :| 0 <= k < |init| && e == InvalidAcl(init[k]) && ParseNetwork(init[k]).None?
             && forall j :: 0 <= j < k ==> ParseNetwork(init[j]).Some?;
    PrefixItems(items, |items| - 1);
    assert init[k] == items[k];
    forall j | 0 <= j < k
      ensures ParseNetwork(items[j]).Some?
    {
      assert init[j] == items[j];
    }
    assert 0 <= k < |items| && e == InvalidAcl(items[k]) && ParseNetwork(items[k]).None?;
  }

  /** When all items but the last are networks and the last is not, the
      last is the first invalid item. */
  lemma ParseItemsLastStep(items: seq<string>, ns: seq<Network>)
    requires items != [] && |ns| == |items| - 1
    requires forall k :: 0 <= k < |ns| ==> ParseNetwork(items[..|items| - 1][k]) == Some(ns[k])
    requires ParseNetwork(items[|items| - 1]).None?
    ensures forall j :: 0 <= j < |items| - 1 ==> ParseNetwork(items[j]).Some?
  {
    PrefixItems(items, |items| - 1);
    forall j | 0 <= j < |items| - 1
      ensures ParseNetwork(items[j]).Some?
    {
      assert ParseNetwork(items[..|items| - 1][j]) == Some(ns[j]);
    }
  }

  /** The networks of all items but the last, then the last one's. */
  lemma ParseItemsOkStep(items: seq<string>, ns: seq<Network>, n: Network)
    requires items != [] && |ns| == |items| - 1
    requires forall k :: 0 <= k < |ns| ==> ParseNetwork(items[..|items| - 1][k]) == Some(ns[k])
    requires ParseNetwork(items[|items| - 1]) == Some(n)
    ensures |ns + [n]| == |items|
    ensures forall k :: 0 <= k < |items| ==> ParseNetwork(items[k]) == Some((ns + [n])[k])
  {
    PrefixItems(items, |items| - 1);
    forall k | 0 <= k < |items|
      ensures ParseNetwork(items[k]) == Some((ns + [n])[k])
    {
      if k < |ns| {
        assert (ns + [n])[k] == ns[k];
      }
    }
  }

  lemma PrefixItems(items: seq<string>, n: nat)
    requires n <= |items|
    ensures forall j :: 0 <= j < n ==> items[..n][j] == items[j]
  {
  }

  /** What `ACL(list_cidr)` stores, or the `ValueError` it raises. */
  function ParseAcl(listCidr: string): Result<seq<Network>, AclError>
  {
    ParseItems(Split(listCidr, ','))
  }

  /** Some network of the list contains the address. */
  function AnyContains(nets: seq<Network>, a: Addr): (b: bool)
    ensures b <==> exists k :: 0 <= k < |nets| && Contains(nets[k], a)
  {
    if nets == [] then false
    else
      assert forall k :: 1 <= k < |nets| ==> nets[k] == nets[1..][k - 1];
      Contains(nets[0], a) || AnyContains(nets[1..], a)
  }

  /** What `ip_allowed(ip)` returns over the networks `nets`, or the
      `ValueError` it raises for an address that does not parse. */
  function Allows(nets: seq<Network>, ip: string): (r: Result<bool, AclError>)
    ensures r.Err? <==> ParseAddress(ip).None?
    ensures r.Err? ==> r.error == InvalidAddress(ip)
    ensures r.Ok? ==> (r.value <==> exists k :: 0 <= k < |nets| && Contains(nets[k], ParseAddress(ip).value))
  {
    match ParseAddress(ip)
    case None => Err(InvalidAddress(ip))
    case Some(a) => Ok(AnyContains(nets, a))
  }

  class Acl {
    var networks: seq<Network>

    constructor()
      ensures networks == []
    {
      networks := [];
    }

    /** `ACL(list_cidr)`: the networks of the comma-separated items, appended
        one by one in input order; the first item that is not a network
        raises `ValueError` naming it. */
    static method New(listCidr: string) returns (r: Result<Acl, AclError>)
      ensures r.Ok? <==> ParseAcl(listCidr).Ok?
      ensures r.Ok? ==> fresh(r.value) && r.value.networks == ParseAcl(listCidr).value
      ensures r.Err? ==> r.error == ParseAcl(listCidr).error
    {
      var nets := Split(listCidr, ',');
      var acl := new Acl();
      for i := 0 to |nets|
        invariant ParseItems(nets[..i]) == Ok(acl.networks)
      {
        var net := ParseNetwork(nets[i]);
        assert nets[..i + 1][..i] == nets[..i];
        if net.None? {
          assert forall j :: 0 <= j < i ==> ParseNetwork(nets[j]).Some? by {
            assert forall j :: 0 <= j < i ==> nets[..i][j] == nets[j];
          }
          assert ParseAcl(listCidr).Err?;
          return Err(InvalidAcl(nets[i]));
        }
        acl.networks := acl.networks + [net.value];
      }
      assert nets[..|nets|] == nets;
      return Ok(acl);
    }

    /** `ip_allowed(ip)`: the networks are tried in order and the first one
        containing the address answers True. */
    method IpAllowed(ip: string) returns (r: Result<bool, AclError>)
      ensures r == Allows(networks, ip)
    {
      var a := ParseAddress(ip);
      if a.None? {
        return Err(InvalidAddress(ip));
      }
      for i := 0 to |networks|
        invariant forall k :: 0 <= k < i ==> !Contains(networks[k], a.value)
      {
        if Contains(networks[i], a.value) {
          return Ok(true);
        }
      }
      return Ok(false);
    }
  }

  // ---------------------------------------------------------------------
  // Membership

  lemma MulMono(x: int, y: int, b: nat)
    requires x <= y
    ensures x * b <= y * b
  {
  }

  /** Within an aligned block of `b` integers from `a`, the range test is
      the same quotient. */
  lemma SameBlock(a: nat, ip: nat, b: nat)
    requires b >= 1 && a % b == 0
    ensures a <= ip <= a + b - 1 <==> ip / b == a / b
  {
    var q := a / b;
    assert a == q * b;
    var d := ip / b;
    assert ip == d * b + ip % b;
    if d >= q + 1 {
      MulMono(q + 1, d, b);
      assert (q + 1) * b == q * b + b;
    } else if d <= q - 1 {
      MulMono(d, q - 1, b);
      assert (q - 1) * b == q * b - b;
    }
  }

  /** Python 3.6 tests membership as a range; for a network without host
      bits that is the netmask test of later versions, `ip & netmask ==
      network_address`, which on integers compares the quotients by the
      block size. */
  lemma ContainsIsMaskTest(n: Network, ip: Addr)
    requires Aligned(n)
    ensures Contains(n, ip) <==> ip / Block(n.prefix) == n.address / Block(n.prefix)
  {
    SameBlock(n.address, ip, Block(n.prefix));
  }

  /** The answer does not depend on the order of the networks. */
  lemma AllowsOrderFree(nets1: seq<Network>, nets2: seq<Network>, ip: string)
    requires multiset(nets1) == multiset(nets2)
    ensures Allows(nets1, ip) == Allows(nets2, ip)
  {
    if ParseAddress(ip).Some? {
      var a := ParseAddress(ip).value;
      if exists k :: 0 <= k < |nets1| && Contains(nets1[k], a) {
        var k :| 0 <= k < |nets1| && Contains(nets1[k], a);
        assert nets1[k] in multiset(nets2);
      }
      if exists k :: 0 <= k < |nets2| && Contains(nets2[k], a) {
        var k :| 0 <= k < |nets2| && Contains(nets2[k], a);
        assert nets2[k] in multiset(nets1);
      }
    }
  }

  // ---------------------------------------------------------------------
  // Round trips and the configured list

  /** `str(address)`: the four octets in decimal, dot-separated. */
  function FormatAddress(a: Addr): string
  {
    ShowNat(a / 0x100_0000) + ['.'] + (ShowNat(a / 0x1_0000 % 256) + ['.'] + (ShowNat(a / 256 % 256) + ['.'] + ShowNat(a % 256)))
  }

  /** `str(network)`: the address, `/` and the prefix length. */
  function FormatNetwork(n: Network): string
  {
    FormatAddress(n.address) + ['/'] + ShowNat(n.prefix)
  }

  /** The items of a comma-separated list of networks. */
  function FormatNetworks(nets: seq<Network>): (items: seq<string>)
    ensures |items| == |nets| && forall k :: 0 <= k < |nets| ==> items[k] == FormatNetwork(nets[k])
  {
    if nets == [] then [] else FormatNetworks(nets[..|nets| - 1]) + [FormatNetwork(nets[|nets| - 1])]
  }

  lemma NotInNumeral(n: nat, c: char)
    requires !IsDigit(c)
    ensures c !in ShowNat(n)
  {
  }

  /** The decimal numeral of an octet parses back to it. */
  lemma ParseOctetShow(v: nat)
    requires v <= 255
    ensures ParseOctet(ShowNat(v)) == Some(v)
  {
    ShowNatShort(v);
    ShowNatValue(v);
  }

  /** An octet above 255 is refused, whatever its numeral. */
  lemma ParseOctetTooLarge(v: nat)
    requires v > 255
    ensures ParseOctet(ShowNat(v)) == None
  {
    ShowNatValue(v);
  }

  lemma ComposeOctets(a: Addr)
    ensures Compose(a / 0x100_0000, a / 0x1_0000 % 256, a / 256 % 256, a % 256) == a
  {
    var b := a / 256;
    var c := b / 256;
    var d := c / 256;
    assert a == b * 256 + a % 256;
    assert b == c * 256 + b % 256;
    assert c == d * 256 + c % 256;
    assert a == c * 0x1_0000 + (b % 256 * 256 + a % 256);
    assert a / 0x1_0000 == c;
    assert a == d * 0x100_0000 + ((c % 256 * 256 + b % 256) * 256 + a % 256);
    assert a / 0x100_0000 == d;
  }

  /** Four dot-free texts joined by dots split back into those four. */
  lemma SplitDotted(s0: string, s1: string, s2: string, s3: string)
    requires '.' !in s0 && '.' !in s1 && '.' !in s2 && '.' !in s3
    ensures Split(s0 + ['.'] + (s1 + ['.'] + (s2 + ['.'] + s3)), '.') == [s0, s1, s2, s3]
  {
    SplitNone(s3, '.');
    SplitCons(s2, '.', s3);
    SplitCons(s1, '.', s2 + ['.'] + s3);
    SplitCons(s0, '.', s1 + ['.'] + (s2 + ['.'] + s3));
  }

  /** The dotted text of an address parses back to it. */
  lemma ParseFormatAddress(a: Addr)
    ensures ParseAddress(FormatAddress(a)) == Some(a)
  {
    var o0, o1, o2, o3 := a / 0x100_0000, a / 0x1_0000 % 256, a / 256 % 256, a % 256;
    NotInNumeral(o0, '.');
    NotInNumeral(o1, '.');
    NotInNumeral(o2, '.');
    NotInNumeral(o3, '.');
    SplitDotted(ShowNat(o0), ShowNat(o1), ShowNat(o2), ShowNat(o3));
    ParseOctetShow(o0);
    ParseOctetShow(o1);
    ParseOctetShow(o2);
    ParseOctetShow(o3);
    ComposeOctets(a);
  }

  lemma NoSlashInAddress(a: Addr)
    ensures '/' !in FormatAddress(a)
  {
    NotInNumeral(a / 0x100_0000, '/');
    NotInNumeral(a / 0x1_0000 % 256, '/');
    NotInNumeral(a / 256 % 256, '/');
    NotInNumeral(a % 256, '/');
  }

  /** The items of `address/prefix` in CIDR notation. */
  lemma SplitCidr(a: Addr, k: nat)
    ensures Split(FormatAddress(a) + ['/'] + ShowNat(k), '/') == [FormatAddress(a), ShowNat(k)]
  {
    NoSlashInAddress(a);
    NotInNumeral(k, '/');
    SplitNone(ShowNat(k), '/');
    SplitCons(FormatAddress(a), '/', ShowNat(k));
  }

  /** A network without host bits, written in CIDR notation, parses back
      to itself. */
  lemma ParseFormatNetwork(n: Network)
    requires Aligned(n)
    ensures ParseNetwork(FormatNetwork(n)) == Some(n)
  {
    SplitCidr(n.address, n.prefix);
    ParseFormatAddress(n.address);
    ShowNatValue(n.prefix);
  }

  /** Strict mode refuses a network whose address has host bits set. */
  lemma HostBitsRejected(a: Addr, p: PrefixLen)
    requires a % Block(p) != 0
    ensures ParseNetwork(FormatAddress(a) + ['/'] + ShowNat(p)) == None
  {
    SplitCidr(a, p);
    ParseFormatAddress(a);
    ShowNatValue(p);
  }

  /** A prefix length above 32 is refused: it is no prefix length, and a
      numeral without dots is no netmask either. */
  lemma PrefixTooLongRejected(a: Addr, k: nat)
    requires k > 32
    ensures ParseNetwork(FormatAddress(a) + ['/'] + ShowNat(k)) == None
  {
    SplitCidr(a, k);
    ShowNatValue(k);
    NotInNumeral(k, '.');
    SplitNone(ShowNat(k), '.');
  }

  /** An address whose first octet is above 255 is refused. */
  lemma AddressOctetTooLarge(v: nat, rest: string)
    requires v > 255
    ensures ParseAddress(ShowNat(v) + ['.'] + rest) == None
  {
    NotInNumeral(v, '.');
    SplitCons(ShowNat(v), '.', rest);
    ParseOctetTooLarge(v);
  }

  /** An item with two slashes is refused. */
  lemma TwoSlashesRejected(x: string, y: string, z: string)
    ensures ParseNetwork(x + ['/'] + y + ['/'] + z) == None
  {
    SplitAppendSep(x, '/', y + ['/'] + z);
    SplitAppendSep(y, '/', z);
    AppendAssoc(x + ['/'], y + ['/'], z);
    AppendAssoc(x + ['/'], y, ['/']);
  }

  /** Items that each parse give the list of their networks. */
  lemma {:induction false} ParseItemsAll(items: seq<string>, nets: seq<Network>)
    requires |items| == |nets|
    requires forall k :: 0 <= k < |items| ==> ParseNetwork(items[k]) == Some(nets[k])
    ensures ParseItems(items) == Ok(nets)
  {
    if items != [] {
      var last := |items| - 1;
      ParseItemsAll(items[..last], nets[..last]);
      assert nets == nets[..last] + [nets[last]];
    }
  }

  lemma NoCommaInNetwork(n: Network)
    ensures ',' !in FormatNetwork(n)
  {
    var a := n.address;
    NotInNumeral(n.prefix, ',');
    NotInNumeral(a / 0x100_0000, ',');
    NotInNumeral(a / 0x1_0000 % 256, ',');
    NotInNumeral(a / 256 % 256, ',');
    NotInNumeral(a % 256, ',');
  }

  /** A non-empty list of networks without host bits, written as the
      comma-separated CIDR items `ACL` expects, gives back those networks
      in order. */
  lemma ParseFormatAcl(nets: seq<Network>)
    requires |nets| >= 1 && forall k :: 0 <= k < |nets| ==> Aligned(nets[k])
    ensures ParseAcl(Join(FormatNetworks(nets), ',')) == Ok(nets)
  {
    var items := FormatNetworks(nets);
    forall k | 0 <= k < |items|
      ensures ',' !in items[k] && ParseNetwork(items[k]) == Some(nets[k])
    {
      ParseFormatNetwork(nets[k]);
      NoCommaInNetwork(nets[k]);
    }
    SplitJoin(items, ',');
    ParseItemsAll(items, nets);
  }

  /** The list configured by default, `192.168.1.0/24,127.0.0.0/8,
      172.17.0.1/32`: every network is free of host bits, `192.168.1.1`
      and `127.0.0.1` are allowed, `192.168.2.1` is not. */
  lemma DefaultAcl(nets: seq<Network>)
    requires nets == [Network(Compose(192, 168, 1, 0), 24), Network(Compose(127, 0, 0, 0), 8),
                      Network(Compose(172, 17, 0, 1), 32)]
    ensures forall k :: 0 <= k < |nets| ==> Aligned(nets[k])
    ensures AnyContains(nets, Compose(192, 168, 1, 1))
    ensures AnyContains(nets, Compose(127, 0, 0, 1))
    ensures !AnyContains(nets, Compose(192, 168, 2, 1))
  {
    assert Pow2(8) == 256;
    Pow2Add(8, 8);
    Pow2Add(16, 8);
    assert Contains(nets[0], Compose(192, 168, 1, 1));
    assert Contains(nets[1], Compose(127, 0, 0, 1));
  }

  // ---------------------------------------------------------------------
  // The default list as configured

  lemma DigitsFree(s: string, c: char)
    requires AllDigits(s) && !IsDigit(c)
    ensures c !in s
  {
  }

  /** A numeral of one, two or three digits, read digit by digit. */
  lemma ShortDigits(s: string)
    requires 1 <= |s| <= 3 && AllDigits(s)
    ensures |s| == 1 ==> DigitsValue(s) == s[0] as int - '0' as int
    ensures |s| == 2 ==> DigitsValue(s) == (s[0] as int - '0' as int) * 10 + (s[1] as int - '0' as int)
    ensures |s| == 3 ==> DigitsValue(s) == (s[0] as int - '0' as int) * 100 + (s[1] as int - '0' as int) * 10
                                           + (s[2] as int - '0' as int)
  {
    assert s[..1][..0] == [];
    if |s| == 3 {
      assert s[..2][..1] == s[..1];
    }
  }

  /** An octet of one, two or three digits without a leading zero. */
  lemma OctetText(s: string, v: nat)
    requires 1 <= |s| <= 3 && AllDigits(s) && (|s| == 1 || s[0] != '0') && v <= 255
    requires |s| == 1 ==> v == s[0] as int - '0' as int
    requires |s| == 2 ==> v == (s[0] as int - '0' as int) * 10 + (s[1] as int - '0' as int)
    requires |s| == 3 ==> v == (s[0] as int - '0' as int) * 100 + (s[1] as int - '0' as int) * 10
                               + (s[2] as int - '0' as int)
    ensures ParseOctet(s) == Some(v)
  {
    ShortDigits(s);
  }

  /** A prefix length of one or two digits. */
  lemma PrefixText(s: string, p: PrefixLen)
    requires 1 <= |s| <= 2 && AllDigits(s)
    requires |s| == 1 ==> p == s[0] as int - '0' as int
    requires |s| == 2 ==> p == (s[0] as int - '0' as int) * 10 + (s[1] as int - '0' as int)
    ensures ParsePrefixLength(s) == Some(p)
  {
    ShortDigits(s);
  }

  /** Four texts joined by dots. */
  function Dotted(s0: string, s1: string, s2: string, s3: string): string
  {
    s0 + ['.'] + (s1 + ['.'] + (s2 + ['.'] + s3))
  }

  /** Four octets joined by dots form the address they compose. */
  lemma ParseDotted(s0: string, s1: string, s2: string, s3: string, o0: nat, o1: nat, o2: nat, o3: nat)
    requires ParseOctet(s0) == Some(o0) && ParseOctet(s1) == Some(o1)
    requires ParseOctet(s2) == Some(o2) && ParseOctet(s3) == Some(o3)
    ensures o0 <= 255 && o1 <= 255 && o2 <= 255 && o3 <= 255
    ensures ParseAddress(Dotted(s0, s1, s2, s3)) == Some(Compose(o0, o1, o2, o3))
  {
    DigitsFree(s0, '.');
    DigitsFree(s1, '.');
    DigitsFree(s2, '.');
    DigitsFree(s3, '.');
    SplitDotted(s0, s1, s2, s3);
  }

  /** An address, `/` and a prefix length under which the address has no
      host bits form that network. */
  lemma ParseCidrText(a: string, pre: string, n: Network)
    requires ParseAddress(a) == Some(n.address) && '/' !in a
    requires ParsePrefixLength(pre) == Some(n.prefix) && Aligned(n)
    ensures ParseNetwork(a + ['/'] + pre) == Some(n)
  {
    DigitsFree(pre, '/');
    SplitNone(pre, '/');
    SplitCons(a, '/', pre);
  }

  /** Four octets, `/` and a prefix length: the network they write, as one
      comma-free item. */
  lemma CidrOfOctets(s0: string, s1: string, s2: string, s3: string, pre: string, n: Network)
    requires ParseOctet(s0).Some? && ParseOctet(s1).Some? && ParseOctet(s2).Some? && ParseOctet(s3).Some?
    requires n.address == Compose(ParseOctet(s0).value, ParseOctet(s1).value, ParseOctet(s2).value,
                                  ParseOctet(s3).value)
    requires ParsePrefixLength(pre) == Some(n.prefix) && Aligned(n)
    ensures ParseNetwork(Dotted(s0, s1, s2, s3) + ['/'] + pre) == Some(n)
    ensures ',' !in Dotted(s0, s1, s2, s3) + ['/'] + pre
  {
    DigitsFree(s0, ',');
    DigitsFree(s1, ',');
    DigitsFree(s2, ',');
    DigitsFree(s3, ',');
    DigitsFree(pre, ',');
    ParseDotted(s0, s1, s2, s3, ParseOctet(s0).value, ParseOctet(s1).value, ParseOctet(s2).value,
                ParseOctet(s3).value);
    DigitsFree(s0, '/');
    DigitsFree(s1, '/');
    DigitsFree(s2, '/');
    DigitsFree(s3, '/');
    ParseCidrText(Dotted(s0, s1, s2, s3), pre, n);
  }

  /** Three comma-free items joined by commas split back into them. */
  lemma SplitThree(a: string, b: string, c: string, sep: char)
    requires sep !in a && sep !in b && sep !in c
    ensures Split(a + [sep] + (b + [sep] + c), sep) == [a, b, c]
  {
    SplitNone(c, sep);
    SplitCons(b, sep, c);
    SplitCons(a, sep, b + [sep] + c);
  }

  /** Three items that are networks give those networks in order. */
  lemma ParseThree(a: string, b: string, c: string, n0: Network, n1: Network, n2: Network)
    requires ParseNetwork(a) == Some(n0) && ParseNetwork(b) == Some(n1) && ParseNetwork(c) == Some(n2)
    ensures ParseItems([a, b, c]) == Ok([n0, n1, n2])
  {
    var items, nets := [a, b, c], [n0, n1, n2];
    forall k | 0 <= k < 3
      ensures ParseNetwork(items[k]) == Some(nets[k])
    {
      if k == 0 { assert items[k] == a; } else if k == 1 { assert items[k] == b; } else { assert items[k] == c; }
    }
    ParseItemsAll(items, nets);
  }

  lemma WideOctets()
    ensures ParseOctet("192") == Some(192) && ParseOctet("168") == Some(168)
    ensures ParseOctet("127") == Some(127) && ParseOctet("172") == Some(172)
  {
    OctetText("192", 192);
    OctetText("168", 168);
    OctetText("127", 127);
    OctetText("172", 172);
  }

  lemma NarrowOctets()
    ensures ParseOctet("17") == Some(17) && ParseOctet("0") == Some(0)
    ensures ParseOctet("1") == Some(1) && ParseOctet("2") == Some(2)
  {
    OctetText("17", 17);
    OctetText("0", 0);
    OctetText("1", 1);
    OctetText("2", 2);
  }

  lemma DefaultPrefixLengths()
    ensures ParsePrefixLength("24") == Some(24) && ParsePrefixLength("8") == Some(8)
    ensures ParsePrefixLength("32") == Some(32)
  {
    PrefixText("24", 24);
    PrefixText("8", 8);
    PrefixText("32", 32);
  }

  lemma DefaultItemsText()
    ensures "192.168.1.0/24,127.0.0.0/8,172.17.0.1/32"
            == "192.168.1.0/24" + [','] + ("127.0.0.0/8" + [','] + "172.17.0.1/32")
  {
  }

  lemma LanItemText()
    ensures "192.168.1.0/24" == Dotted("192", "168", "1", "0") + ['/'] + "24"
  {
  }

  lemma LoopbackItemText()
    ensures "127.0.0.0/8" == Dotted("127", "0", "0", "0") + ['/'] + "8"
  {
  }

  lemma BridgeItemText()
    ensures "172.17.0.1/32" == Dotted("172", "17", "0", "1") + ['/'] + "32"
  {
  }

  /** The default list, item by item. */
  lemma DefaultListText()
    ensures "192.168.1.0/24,127.0.0.0/8,172.17.0.1/32"
            == (Dotted("192", "168", "1", "0") + ['/'] + "24") + [',']
               + ((Dotted("127", "0", "0", "0") + ['/'] + "8") + [',']
                  + (Dotted("172", "17", "0", "1") + ['/'] + "32"))
  {
    DefaultItemsText();
    LanItemText();
    LoopbackItemText();
    BridgeItemText();
  }

  /** Each item of the default list is a network without host bits. */
  lemma DefaultItemsParsed(nets: seq<Network>)
    requires nets == [Network(Compose(192, 168, 1, 0), 24), Network(Compose(127, 0, 0, 0), 8),
                      Network(Compose(172, 17, 0, 1), 32)]
    ensures ParseNetwork(Dotted("192", "168", "1", "0") + ['/'] + "24") == Some(nets[0])
    ensures ParseNetwork(Dotted("127", "0", "0", "0") + ['/'] + "8") == Some(nets[1])
    ensures ParseNetwork(Dotted("172", "17", "0", "1") + ['/'] + "32") == Some(nets[2])
    ensures ',' !in Dotted("192", "168", "1", "0") + ['/'] + "24"
    ensures ',' !in Dotted("127", "0", "0", "0") + ['/'] + "8"
    ensures ',' !in Dotted("172", "17", "0", "1") + ['/'] + "32"
  {
    DefaultAcl(nets);
    WideOctets();
    NarrowOctets();
    DefaultPrefixLengths();
    CidrOfOctets("192", "168", "1", "0", "24", nets[0]);
    CidrOfOctets("127", "0", "0", "0", "8", nets[1]);
    CidrOfOctets("172", "17", "0", "1", "32", nets[2]);
  }

  /** `ACL(config.ip_acl)` with the default setting stores these three
      networks, in order. */
  lemma DefaultAclParsed(nets: seq<Network>)
    requires nets == [Network(Compose(192, 168, 1, 0), 24), Network(Compose(127, 0, 0, 0), 8),
                      Network(Compose(172, 17, 0, 1), 32)]
    ensures ParseAcl("192.168.1.0/24,127.0.0.0/8,172.17.0.1/32") == Ok(nets)
  {
    var lan := Dotted("192", "168", "1", "0") + ['/'] + "24";
    var loopback := Dotted("127", "0", "0", "0") + ['/'] + "8";
    var bridge := Dotted("172", "17", "0", "1") + ['/'] + "32";
    DefaultItemsParsed(nets);
    DefaultListText();
    SplitThree(lan, loopback, bridge, ',');
    ParseThree(lan, loopback, bridge, nets[0], nets[1], nets[2]);
  }

  lemma LanHostText()
    ensures ParseAddress("192.168.1.1") == Some(Compose(192, 168, 1, 1))
  {
    WideOctets();
    NarrowOctets();
    assert "192.168.1.1" == Dotted("192", "168", "1", "1");
    ParseDotted("192", "168", "1", "1", 192, 168, 1, 1);
  }

  lemma LoopbackHostText()
    ensures ParseAddress("127.0.0.1") == Some(Compose(127, 0, 0, 1))
  {
    WideOctets();
    NarrowOctets();
    assert "127.0.0.1" == Dotted("127", "0", "0", "1");
    ParseDotted("127", "0", "0", "1", 127, 0, 0, 1);
  }

  lemma OtherHostText()
    ensures ParseAddress("192.168.2.1") == Some(Compose(192, 168, 2, 1))
  {
    WideOctets();
    NarrowOctets();
    assert "192.168.2.1" == Dotted("192", "168", "2", "1");
    ParseDotted("192", "168", "2", "1", 192, 168, 2, 1);
  }

  /** `ip_allowed` on the default list answers as the tests expect:
      `192.168.1.1` and `127.0.0.1` are allowed, `192.168.2.1` is not. */
  lemma DefaultAclAllows(nets: seq<Network>)
    requires nets == [Network(Compose(192, 168, 1, 0), 24), Network(Compose(127, 0, 0, 0), 8),
                      Network(Compose(172, 17, 0, 1), 32)]
    ensures Allows(nets, "192.168.1.1") == Ok(true)
    ensures Allows(nets, "127.0.0.1") == Ok(true)
    ensures Allows(nets, "192.168.2.1") == Ok(false)
  {
    DefaultAcl(nets);
    LanHostText();
    LoopbackHostText();
    OtherHostText();
  }
}

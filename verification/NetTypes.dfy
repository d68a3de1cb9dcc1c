/** The value types and the address-manager constants of `src/addrman.h`.

    Addresses are opaque byte strings; what the node computes from them by hashing or by
    looking at address ranges is a parameter (`Net`), so every theorem holds for all hash
    functions and all notions of group and routability. */
module NetTypes {
  type Byte = b: int | 0 <= b < 256
  type Uint16 = n: int | 0 <= n < 0x1_0000
  type Uint32 = n: int | 0 <= n < 0x1_0000_0000

  const TRIED_BUCKET_COUNT := 64
  const TRIED_BUCKET_SIZE := 64
  const NEW_BUCKET_COUNT := 256
  const NEW_BUCKET_SIZE := 64
  const TRIED_BUCKETS_PER_GROUP := 4
  const NEW_BUCKETS_PER_SOURCE_GROUP := 32
  const NEW_BUCKETS_PER_ADDRESS := 4
  const TRIED_ENTRIES_INSPECT_ON_EVICT := 4
  const HORIZON_DAYS := 30
  const RETRIES := 3
  const MAX_FAILURES := 10
  const MIN_FAIL_DAYS := 7
  const GETADDR_MAX_PCT := 23
  const GETADDR_MAX := 2500

  /** CNetAddr: a network address without a port. */
  datatype NetAddr = NetAddr(ip: seq<Byte>)

  /** CService: a network address with a port. */
  datatype Service = Service(net: NetAddr, port: Uint16)
  {
    /** CService::GetKey: the address followed by the two port bytes. */
    function Key(): (r: seq<Byte>) {
      net.ip + [port / 256, port % 256]
    }
  }

  /** CAddress as received from a peer; `nServices` is the set of service bits that are on. */
  datatype Address = Address(service: Service, nServices: set<nat>, nTime: Uint32)

  /** What the node knows about addresses from outside this model. */
  datatype Net = Net(hash: seq<seq<Byte>> -> nat, group: NetAddr -> seq<Byte>, routable: NetAddr -> bool)

  /** CAddrInfo. */
  datatype AddrInfo = AddrInfo(
    addr: Service,
    nServices: set<nat>,
    nTime: Uint32,
    source: NetAddr,
    nLastSuccess: int,
    nLastTry: int,
    nAttempts: int,
    nRefCount: int,
    fInTried: bool,
    nRandomPos: int)

  /** An assignment to an `unsigned int`. */
  function ToUint32(n: int): (r: Uint32) {
    n % 0x1_0000_0000
  }

  function Max(a: int, b: int): (r: int) {
    if a < b then b else a
  }

  function Min(a: int, b: int): (r: int) {
    if a < b then a else b
  }

  function FreshInfo(a: Address, source: NetAddr): (r: AddrInfo) {
    AddrInfo(a.service, a.nServices, a.nTime, source, 0, 0, 0, 0, false, -1)
  }

  function TriedBucket(net: Net, key: seq<Byte>, s: Service): (b: nat)
    ensures b < TRIED_BUCKET_COUNT
  {
    var hash1 := net.hash([key, s.Key()]);
    net.hash([key, net.group(s.net), [hash1 % TRIED_BUCKETS_PER_GROUP]]) % TRIED_BUCKET_COUNT
  }

  function NewBucket(net: Net, key: seq<Byte>, a: NetAddr, source: NetAddr): (b: nat)
    ensures b < NEW_BUCKET_COUNT
  {
    var hash1 := net.hash([key, net.group(a), net.group(source)]);
    net.hash([key, net.group(source), [hash1 % NEW_BUCKETS_PER_SOURCE_GROUP]]) % NEW_BUCKET_COUNT
  }

  /** CAddrInfo::IsTerrible at time `now`. */
  predicate IsTerrible(i: AddrInfo, now: int) {
    if i.nLastTry != 0 && i.nLastTry >= now - 60 then false
    else if i.nTime > now + 10 * 60 then true
    else if i.nTime == 0 || now - i.nTime > HORIZON_DAYS * 86400 then true
    else if i.nLastSuccess == 0 && i.nAttempts >= RETRIES then true
    else now - i.nLastSuccess > MIN_FAIL_DAYS * 86400 && i.nAttempts >= MAX_FAILURES
  }

  /** `CAddrInfo::GetTriedBucket`. */
  method GetTriedBucket(net: Net, key: seq<Byte>, s: Service) returns (b: nat)
    ensures b == TriedBucket(net, key, s)
  {
    var vchKey := s.net.ip + [s.port / 0x100, s.port % 0x100];
    var hash1 := net.hash([key, vchKey]);
    var vchGroupKey := net.group(s.net);
    var hash2 := net.hash([key, vchGroupKey, [hash1 % TRIED_BUCKETS_PER_GROUP]]);
    b := hash2 % TRIED_BUCKET_COUNT;
  }

  /** `CAddrInfo::GetNewBucket`. */
  method GetNewBucket(net: Net, key: seq<Byte>, a: NetAddr, source: NetAddr) returns (b: nat)
    ensures b == NewBucket(net, key, a, source)
  {
    var vchGroupKey := net.group(a);
    var vchSourceGroupKey := net.group(source);
    var hash1 := net.hash([key, vchGroupKey, vchSourceGroupKey]);
    var hash2 := net.hash([key, vchSourceGroupKey, [hash1 % NEW_BUCKETS_PER_SOURCE_GROUP]]);
    b := hash2 % NEW_BUCKET_COUNT;
  }

  /** `CAddrInfo::IsTerrible`. */
  method MayBeDeleted(i: AddrInfo, nNow: int) returns (r: bool)
    ensures r == IsTerrible(i, nNow)
  {
    if i.nLastTry != 0 && i.nLastTry >= nNow - 60 {
      return false;
    }
    if i.nTime > nNow + 10 * 60 {
      return true;
    }
    if i.nTime == 0 || nNow - i.nTime > HORIZON_DAYS * 86400 {
      return true;
    }
    if i.nLastSuccess == 0 && i.nAttempts >= RETRIES {
      return true;
    }
    if nNow - i.nLastSuccess > MIN_FAIL_DAYS * 86400 && i.nAttempts >= MAX_FAILURES {
      return true;
    }
    return false;
  }
}

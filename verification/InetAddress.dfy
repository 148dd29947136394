/**
 The socket address of src/inetaddress.rs: the 128 bytes of a Linux `sockaddr_storage`, in
 which `sockaddr_in` and `sockaddr_in6` overlap, on a little-endian host.
 */
module InetAddresses {
  import opened Bits
  import opened Wrappers
  import opened Lex
  import Cidr
  import Io
  import Seqs

  const AF_INET: nat := 2
  const AF_INET6: nat := 10
  const SIZE: nat := 128

  type Storage = s: seq<byte> | |s| == SIZE witness seq(SIZE, _ => 0)

  function Zeroes(n: nat): (z: seq<byte>)
    ensures |z| == n && forall i :: 0 <= i < n ==> z[i] == 0
  {
    seq(n, _ => 0)
  }

  const ZEROED: Storage := Zeroes(SIZE)

  // ---------------------------------------------------------------------------------
  // Fields of the union
  // ---------------------------------------------------------------------------------

  /** `sa_family`, a native 16-bit word. */
  function Family(a: Storage): nat {
    a[0] as int + 256 * a[1] as int
  }

  predicate IsIp(a: Storage) {
    Family(a) == AF_INET || Family(a) == AF_INET6
  }

  /** `sin_port` and `sin6_port`, kept in network order. */
  function PortBytes(a: Storage): seq<byte> {
    a[2..4]
  }

  /** `ip_bytes`. */
  function Ip(a: Storage): (ip: seq<byte>)
    ensures |ip| == if Family(a) == AF_INET then 4 else if Family(a) == AF_INET6 then 16 else 0
  {
    if Family(a) == AF_INET then a[4..8] else if Family(a) == AF_INET6 then a[8..24] else []
  }

  /** `port`. */
  function Port(a: Storage): nat {
    if IsIp(a) then BigEndian(PortBytes(a)) else 0
  }

  function BigEndian16(port: nat): seq<byte>
    requires port < 65536
  {
    [port / 256, port % 256]
  }

  /** `s` with `x` written over it from position `at`. */
  function Put(s: Storage, at: nat, x: seq<byte>): Storage
    requires at + |x| <= SIZE
  {
    Seqs.Splice(s, at, x)
  }

  function BuiltWith(family: byte, at: nat, ip: seq<byte>, port: nat): Storage
    requires port < 65536 && 4 <= at && at + |ip| <= SIZE
  {
    Put(Put(Put(ZEROED, 0, [family, 0]), 2, BigEndian16(port)), at, ip)
  }

  /** What `set` leaves behind; an address of any length but 4 and 16 leaves zeroes. */
  function Built(ip: seq<byte>, port: nat): Storage
    requires port < 65536
  {
    if |ip| == 4 then BuiltWith(AF_INET, 4, ip, port)
    else if |ip| == 16 then BuiltWith(AF_INET6, 8, ip, port)
    else ZEROED
  }

  lemma PortRoundTrip(port: nat)
    requires port < 65536
    ensures BigEndian(BigEndian16(port)) == port
  {
    BigEndianSnoc([port / 256], port % 256);
    BigEndianSnoc([], port / 256);
    assert [port / 256] + [port % 256] == BigEndian16(port);
    Seqs.Empty([port / 256]);
  }

  lemma BytesOfPort(b: seq<byte>)
    requires |b| == 2
    ensures BigEndian(b) < 65536 && BigEndian16(BigEndian(b)) == b
  {
    BigEndianSnoc([b[0]], b[1]);
    BigEndianSnoc([], b[0]);
    assert [b[0]] + [b[1]] == b;
    Seqs.Empty([b[0]]);
  }

  /** The fields read back what was set. */
  lemma BuiltFields(ip: seq<byte>, port: nat)
    requires port < 65536 && (|ip| == 4 || |ip| == 16)
    ensures var a := Built(ip, port);
            && Family(a) == (if |ip| == 4 then AF_INET else AF_INET6)
            && Ip(a) == ip && PortBytes(a) == BigEndian16(port) && Port(a) == port
  {
    var family: byte, at := if |ip| == 4 then AF_INET else AF_INET6, if |ip| == 4 then 4 else 8;
    var s1 := Put(ZEROED, 0, [family, 0]);
    var s2 := Put(s1, 2, BigEndian16(port));
    Seqs.SplicePart(s2, at, ip, at, |ip|);
    Seqs.SplicePart(s2, at, ip, 2, 2);
    Seqs.SplicePart(s1, 2, BigEndian16(port), 2, 2);
    assert s1[0] == family && s1[1] == 0;
    PortRoundTrip(port);
  }

  // ---------------------------------------------------------------------------------
  // Equality, order and hashing
  // ---------------------------------------------------------------------------------

  /**
   The bytes of the storage: family, port in network order, address (from byte 4 for IPv4 and
   from byte 8 for IPv6), and nothing but zeroes elsewhere.
   */
  predicate LaidOut(a: Storage, ip: seq<byte>, port: nat) {
    forall i :: 0 <= i < 128 ==>
                  a[i] == if |ip| != 4 && |ip| != 16 then 0
                          else if i == 0 then (if |ip| == 4 then 2 else 10)
                          else if i == 2 then port / 256
                          else if i == 3 then port % 256
                          else if |ip| == 4 && 4 <= i < 8 then ip[i - 4]
                          else if |ip| == 16 && 8 <= i < 24 then ip[i - 8]
                          else 0
  }

  lemma BuiltBytes(ip: seq<byte>, port: nat)
    requires port < 65536
    ensures LaidOut(Built(ip, port), ip, port)
  {
  }

  /** `eq`. */
  predicate Eq(a: Storage, b: Storage) {
    if Family(a) == Family(b) then
      if Family(a) == AF_INET then PortBytes(a) == PortBytes(b) && Ip(a) == Ip(b)
      else if Family(a) == AF_INET6 then (if PortBytes(a) == PortBytes(b) then Ip(a) == Ip(b) else false)
      else true
    else false
  }

  /** `cmp`. */
  function Cmp(a: Storage, b: Storage): Ordering {
    if Family(a) == Family(b) then
      if Family(a) == 0 then Equal
      else if Family(a) == AF_INET then
        var ipOrdering := CompareInt(BigEndian(Ip(a)), BigEndian(Ip(b)));
        if ipOrdering == Equal then CompareInt(BigEndian(PortBytes(a)), BigEndian(PortBytes(b))) else ipOrdering
      else if Family(a) == AF_INET6 then
        var ipOrdering := Compare(Ip(a), Ip(b));
        if ipOrdering == Equal then CompareInt(BigEndian(PortBytes(a)), BigEndian(PortBytes(b))) else ipOrdering
      else Compare(a, b)
    else
      if Family(a) == 0 then Less
      else if Family(a) == AF_INET then
        (if Family(b) == AF_INET6 then Less else CompareInt(Family(a), Family(b)))
      else if Family(a) == AF_INET6 then
        (if Family(b) == AF_INET then Greater else CompareInt(Family(a), Family(b)))
      else CompareInt(Family(a), Family(b))
  }

  /** What `hash` feeds to the hasher, write by write. */
  datatype HashWrite = WriteU8(byte) | WriteU16(seq<byte>) | WriteU32(seq<byte>) | WriteBytes(seq<byte>)

  function HashInput(a: Storage): seq<HashWrite> {
    [WriteU8(Family(a) % 256)]
    + (if Family(a) == AF_INET then [WriteU16(PortBytes(a)), WriteU32(Ip(a))]
       else if Family(a) == AF_INET6 then [WriteU16(PortBytes(a)), WriteBytes(Ip(a))]
       else [])
  }

  /** Family, big-endian address and port, one after the other; all bytes of an unknown family. */
  function Key(a: Storage): seq<byte> {
    [a[1], a[0]] + (if Family(a) == 0 then [] else if IsIp(a) then Ip(a) + PortBytes(a) else a)
  }

  lemma {:induction false} NumericOrder(x: seq<byte>, y: seq<byte>)
    requires |x| == |y|
    ensures CompareInt(BigEndian(x), BigEndian(y)) == Compare(x, y)
  {
    if x == [] {
    } else {
      var m := |x| - 1;
      NumericOrder(x[..m], y[..m]);
      CompareEqual(x[..m], y[..m]);
      CompareConcat(x[..m], y[..m], [x[m]], [y[m]]);
      Seqs.InitLast(x);
      Seqs.InitLast(y);
      Seqs.Singleton(x[m]);
      Seqs.Singleton(y[m]);
    }
  }

  lemma FamilyOrder(a: Storage, b: Storage)
    ensures Compare([a[1], a[0]], [b[1], b[0]]) == CompareInt(Family(a), Family(b))
    ensures [a[1], a[0]] == [b[1], b[0]] <==> Family(a) == Family(b)
  {
    assert [a[1], a[0]][1..] == [a[0]] && [b[1], b[0]][1..] == [b[0]];
    Seqs.Singleton(a[0]);
    Seqs.Singleton(b[0]);
    assert Compare([a[0]], [b[0]]) == CompareInt(a[0], b[0]);
  }

  /** The comparison is lexicographic on (family, big-endian address, port). */
  lemma OrderIsLexicographic(a: Storage, b: Storage)
    ensures Cmp(a, b) == Compare(Key(a), Key(b))
  {
    FamilyOrder(a, b);
    var p, q := Key(a)[2..], Key(b)[2..];
    Seqs.Parts([a[1], a[0]], p);
    Seqs.Parts([b[1], b[0]], q);
    assert Key(a) == [a[1], a[0]] + p && Key(b) == [b[1], b[0]] + q;
    CompareConcat([a[1], a[0]], [b[1], b[0]], p, q);
    if Family(a) == Family(b) && IsIp(a) {
      CompareConcat(Ip(a), Ip(b), PortBytes(a), PortBytes(b));
      CompareEqual(Ip(a), Ip(b));
      NumericOrder(Ip(a), Ip(b));
      NumericOrder(PortBytes(a), PortBytes(b));
    }
  }

  /** A total order on all addresses, whatever their families. */
  lemma OrderIsTotal(a: Storage, b: Storage, c: Storage)
    ensures Cmp(b, a) == Flip(Cmp(a, b))
    ensures Cmp(a, b) == Less && Cmp(b, c) == Less ==> Cmp(a, c) == Less
    ensures Cmp(a, b) == Equal ==> Cmp(a, c) == Cmp(b, c)
  {
    OrderIsLexicographic(a, b);
    OrderIsLexicographic(b, a);
    OrderIsLexicographic(b, c);
    OrderIsLexicographic(a, c);
    CompareFlip(Key(a), Key(b));
    CompareEqual(Key(a), Key(b));
    if Cmp(a, b) == Less && Cmp(b, c) == Less {
      LtTransitive(Key(a), Key(b), Key(c));
    }
  }

  /**
   Field by field: nil before IPv4 before IPv6; then the address as a number or byte by byte
   from the left; then the port.
   */
  lemma OrderByFields(a: Storage, b: Storage)
    ensures Family(a) != Family(b) ==> (Cmp(a, b) == Less <==> Family(a) < Family(b))
    ensures Family(a) == Family(b) == 0 ==> Cmp(a, b) == Equal
    ensures Family(a) == Family(b) == 2 ==>
              var x, y := BigEndian(a[4..8]), BigEndian(b[4..8]);
              Cmp(a, b) == Less <==> x < y || (x == y && BigEndian(a[2..4]) < BigEndian(b[2..4]))
    ensures Family(a) == Family(b) == 10 ==>
              var x, y := a[8..24], b[8..24];
              Cmp(a, b) == Less <==> Precedes(x, y) || (x == y && BigEndian(a[2..4]) < BigEndian(b[2..4]))
  {
    LtIsPrecedes(a[8..24], b[8..24]);
    CompareEqual(a[8..24], b[8..24]);
  }

  /** Equal are two of one family whose address and port bytes are the same, if it has them. */
  lemma EqualByFields(a: Storage, b: Storage)
    ensures Eq(a, b) <==>
              && a[0] == b[0] && a[1] == b[1]
              && (Family(a) == 2 ==> a[2..4] == b[2..4] && a[4..8] == b[4..8])
              && (Family(a) == 10 ==> a[2..4] == b[2..4] && a[8..24] == b[8..24])
  {
  }

  predicate KnownFamily(a: Storage) {
    Family(a) == 0 || IsIp(a)
  }

  /**
   Comparing as equal and being equal are the same for nil, IPv4 and IPv6 addresses; with an
   unknown family equality looks at nothing while comparison looks at every byte.
   */
  lemma EqualExactly(a: Storage, b: Storage)
    ensures (Cmp(a, b) == Equal <==> Eq(a, b)) <==> (KnownFamily(a) || Family(a) != Family(b) || a == b)
  {
    OrderIsLexicographic(a, b);
    CompareEqual(a, b);
    CompareEqual(Ip(a), Ip(b));
    if Family(a) == Family(b) && IsIp(a) {
      NumericOrder(Ip(a), Ip(b));
      NumericOrder(PortBytes(a), PortBytes(b));
      CompareEqual(PortBytes(a), PortBytes(b));
    }
  }

  /** Equal addresses feed the same to a hasher; and among nil, IPv4 and IPv6 only they do. */
  lemma HashedAlike(a: Storage, b: Storage)
    ensures Eq(a, b) ==> HashInput(a) == HashInput(b)
    ensures KnownFamily(a) && KnownFamily(b) && HashInput(a) == HashInput(b) ==> Eq(a, b)
  {
    var x, y := HashInput(a), HashInput(b);
    if KnownFamily(a) && KnownFamily(b) && x == y {
      assert x[0] == WriteU8(Family(a) % 256) && y[0] == WriteU8(Family(b) % 256);
      assert Family(a) == Family(b);
      if IsIp(a) {
        assert x[1] == WriteU16(PortBytes(a)) && y[1] == WriteU16(PortBytes(b));
        assert x[2] == y[2];
      }
    }
  }

  // ---------------------------------------------------------------------------------
  // Matching a CIDR range
  // ---------------------------------------------------------------------------------

  /** How many leading bits the code compares for a range of `n` bits, none if it rejects `n`. */
  function ComparedBits(family: nat, n: nat): Option<nat> {
    if family == AF_INET then
      (if n > 32 then None else if n == 0 then Some(32) else Some(n))
    else if family == AF_INET6 then
      (if n > 128 then None else if n % 8 == 0 then Some(n + 8) else Some(n))
    else None
  }

  predicate SameBits(x: seq<byte>, y: seq<byte>, w: nat)
    requires |x| == |y| && w <= 8 * |x|
  {
    Cidr.AddressBits(x)[..w] == Cidr.AddressBits(y)[..w]
  }

  /** 128 bits of equal IPv6 addresses make the code read a seventeenth byte. */
  function Within(a: Storage, cidr: Storage): Outcome<bool> {
    if Family(a) != Family(cidr) then Returns(false)
    else match ComparedBits(Family(a), Port(cidr))
         case None => Returns(false)
         case Some(w) =>
           if w <= 8 * |Ip(a)| then Returns(SameBits(Ip(a), Ip(cidr), w))
           else if Ip(a) == Ip(cidr) then Panic
           else Returns(false)
  }

  /** Matching panics exactly for an IPv6 range of 128 bits and the very address of the range. */
  lemma PanicsExactly(a: Storage, cidr: Storage)
    ensures Within(a, cidr).Panic? <==>
              Family(a) == Family(cidr) == AF_INET6 && Port(cidr) == 128 && Ip(a) == Ip(cidr)
  {
    var n := Port(cidr);
    assert n % 8 == 0 && n < 128 ==> n + 8 <= 128;
  }

  /**
   The answer by cases: no for different families, for families without addresses and for
   more bits than there are; otherwise a comparison of so many leading bits.
   */
  predicate MatchedAs(a: Storage, cidr: Storage, r: Outcome<bool>) {
    var n := Port(cidr);
    if Family(a) != Family(cidr) then r == Returns(false)
    else if Family(a) == 2 then
      r == if n > 32 then Returns(false) else Returns(SameBits(Ip(a), Ip(cidr), if n == 0 then 32 else n))
    else if Family(a) == 10 then
      (if n > 128 then r == Returns(false)
       else if n == 128 then r == if Ip(a) == Ip(cidr) then Panic else Returns(false)
       else r == Returns(SameBits(Ip(a), Ip(cidr), if n % 8 == 0 then n + 8 else n)))
    else r == Returns(false)
  }

  lemma MatchedByCases(a: Storage, cidr: Storage)
    ensures MatchedAs(a, cidr, Within(a, cidr))
  {
    PanicsExactly(a, cidr);
  }

  predicate AsDocumented(family: nat, n: nat, x: seq<byte>, y: seq<byte>)
    requires |x| == |y| && n <= 8 * |x|
  {
    match ComparedBits(family, n)
    case None => false
    case Some(w) => w <= 8 * |x| && (SameBits(x, y, w) <==> SameBits(x, y, n))
  }

  lemma SameBitsShorter(x: seq<byte>, y: seq<byte>, n: nat, w: nat)
    requires |x| == |y| && n <= w <= 8 * |x|
    ensures SameBits(x, y, w) ==> SameBits(x, y, n)
  {
    var p, q := Cidr.AddressBits(x), Cidr.AddressBits(y);
    assert p[..n] == p[..w][..n] && q[..n] == q[..w][..n];
  }

  /** A range of n bits is the first n bits for every pair of IPv4 addresses exactly when n > 0. */
  lemma DocumentedWidthV4(n: nat)
    requires n <= 32
    ensures n > 0 <==> forall x: seq<byte>, y: seq<byte> :: |x| == |y| == 4 ==> AsDocumented(AF_INET, n, x, y)
  {
    if n == 0 {
      var x: seq<byte>, y: seq<byte> := [0, 0, 0, 0], [0, 0, 0, 1];
      Cidr.AddressBitsDetermine(x, y);
      Seqs.TakeAll(Cidr.AddressBits(x));
      Seqs.TakeAll(Cidr.AddressBits(y));
      assert x[3] != y[3];
      assert !AsDocumented(AF_INET, n, x, y);
    }
  }

  /** For IPv6 it is so exactly when n is not divisible by eight. */
  lemma DocumentedWidthV6(n: nat)
    requires n <= 128
    ensures n % 8 != 0 <==> forall x: seq<byte>, y: seq<byte> :: |x| == |y| == 16 ==> AsDocumented(AF_INET6, n, x, y)
  {
    if n % 8 == 0 {
      var p := n / 8;
      var x: seq<byte> := seq(16, _ => 0);
      var y: seq<byte> := seq(16, i => if i == p then 1 else 0);
      if n < 128 {
        Pow2Small();
        Cidr.BytesComparePrefix(x, y, p, 0, 256);
        Cidr.BytesComparePrefix(x, y, p, 8, 1);
        assert x[..p] == y[..p];
      }
      assert !AsDocumented(AF_INET6, n, x, y);
    }
  }

  // ---------------------------------------------------------------------------------
  // Wire format
  // ---------------------------------------------------------------------------------

  function Wire(a: Storage): seq<byte> {
    if Family(a) == AF_INET then [4] + Ip(a) + PortBytes(a)
    else if Family(a) == AF_INET6 then [6] + Ip(a) + PortBytes(a)
    else [0]
  }

  /** One address off the front of a stream, and the stream behind it; None when it ends too soon. */
  function Unwire(s: seq<byte>): Option<(Storage, seq<byte>)> {
    if s == [] then None
    else if s[0] == 4 then
      if |s| < 7 then None
      else BytesOfPort(s[5..7]); Some((Built(s[1..5], BigEndian(s[5..7])), s[7..]))
    else if s[0] == 6 then
      if |s| < 19 then None
      else BytesOfPort(s[17..19]); Some((Built(s[1..17], BigEndian(s[17..19])), s[19..]))
    else Some((ZEROED, s[1..]))
  }

  /** The address with everything but family, IP and port zeroed. */
  function Canonical(a: Storage): Storage {
    BytesOfPort(PortBytes(a));
    if IsIp(a) then Built(Ip(a), BigEndian(PortBytes(a))) else ZEROED
  }

  lemma CanonicalIsEqual(a: Storage)
    requires KnownFamily(a)
    ensures Eq(Canonical(a), a) && Wire(Canonical(a)) == Wire(a)
  {
    if IsIp(a) {
      BytesOfPort(PortBytes(a));
      BuiltFields(Ip(a), BigEndian(PortBytes(a)));
    }
  }

  lemma BuiltIsCanonical(ip: seq<byte>, port: nat)
    requires port < 65536 && (|ip| == 4 || |ip| == 16)
    ensures Canonical(Built(ip, port)) == Built(ip, port)
  {
    BuiltFields(ip, port);
    PortRoundTrip(port);
  }

  /** Reading a written address consumes exactly its 1, 7 or 19 bytes and gives an equal one. */
  lemma WireRoundTrip(a: Storage, s: seq<byte>)
    ensures |Wire(a)| == if Family(a) == AF_INET then 7 else if Family(a) == AF_INET6 then 19 else 1
    ensures Unwire(Wire(a) + s) == Some((Canonical(a), s))
  {
    var w := Wire(a);
    Seqs.Parts(w, s);
    Seqs.Front(w, s, 0);
    if IsIp(a) {
      var n := |Ip(a)|;
      assert w[0] == if n == 4 then 4 else 6;
      assert (w + s)[1..1 + n] == Ip(a);
      assert (w + s)[1 + n..3 + n] == PortBytes(a);
    }
  }

  /**
   An address that was read has nothing but family, IP and port, and is written back as the
   very bytes it was read from, unless its tag was one of the unknown ones that read as nil.
   */
  lemma ReadThenWritten(s: seq<byte>)
    requires Unwire(s).Some?
    ensures var (a, rest) := Unwire(s).value;
            Canonical(a) == a && (Wire(a) + rest == s <==> s[0] == 0 || s[0] == 4 || s[0] == 6)
  {
    if s[0] == 4 || s[0] == 6 {
      ReadIpThenWritten(s, if s[0] == 4 then 4 else 16);
    } else {
      Seqs.HeadTail(s);
      assert ([0] + s[1..])[0] == 0;
    }
  }

  lemma ReadIpThenWritten(s: seq<byte>, n: nat)
    requires (n == 4 && |s| >= 7 && s[0] == 4) || (n == 16 && |s| >= 19 && s[0] == 6)
    ensures Unwire(s).Some?
    ensures var (a, rest) := Unwire(s).value; Canonical(a) == a && Wire(a) + rest == s
  {
    var ip, p := s[1..1 + n], s[1 + n..3 + n];
    BytesOfPort(p);
    BuiltIsCanonical(ip, BigEndian(p));
    BuiltFields(ip, BigEndian(p));
    assert s == [s[0]] + ip + p + s[3 + n..];
  }

  /** What is on the wire: a tag of 4, 6 or 0, the address and the port, both in network order. */
  lemma WireBytes(a: Storage, s: seq<byte>)
    ensures Wire(a) == if a[0] == 2 && a[1] == 0 then [4] + a[4..8] + a[2..4]
                       else if a[0] == 10 && a[1] == 0 then [6] + a[8..24] + a[2..4]
                       else [0]
    ensures Unwire(s).None? <==> |s| < 1 || (s[0] == 4 && |s| < 7) || (s[0] == 6 && |s| < 19)
    ensures Unwire(s).Some? ==>
              var (b, rest) := Unwire(s).value;
              if s[0] == 4 then rest == s[7..] && LaidOut(b, s[1..5], 256 * s[5] as int + s[6] as int)
              else if s[0] == 6 then rest == s[19..] && LaidOut(b, s[1..17], 256 * s[17] as int + s[18] as int)
              else rest == s[1..] && LaidOut(b, [], 0)
  {
    BuiltBytes([], 0);
    if Unwire(s).Some? && (s[0] == 4 || s[0] == 6) {
      var n := if s[0] == 4 then 4 else 16;
      var p := s[1 + n..3 + n];
      BytesOfPort(p);
      assert BigEndian16(BigEndian(p)) == p;
      BuiltBytes(s[1..1 + n], BigEndian(p));
    }
  }

  function WireAll(addresses: seq<Storage>): seq<byte> {
    if addresses == [] then [] else Wire(addresses[0]) + WireAll(addresses[1..])
  }

  function UnwireMany(count: nat, s: seq<byte>): Option<(seq<Storage>, seq<byte>)> {
    if count == 0 then Some(([], s))
    else match Unwire(s)
         case None => None
         case Some(x) =>
           match UnwireMany(count - 1, x.1)
           case None => None
           case Some(rest) => Some(([x.0] + rest.0, rest.1))
  }

  /** Addresses written one after the other are read back, equal to what was written. */
  lemma {:induction false} WireStreamRoundTrip(addresses: seq<Storage>, s: seq<byte>)
    requires forall i :: 0 <= i < |addresses| ==> KnownFamily(addresses[i])
    ensures var r := UnwireMany(|addresses|, WireAll(addresses) + s);
            && r.Some? && r.value.1 == s && |r.value.0| == |addresses|
            && forall i :: 0 <= i < |addresses| ==> Eq(r.value.0[i], addresses[i])
    decreases |addresses|
  {
    if addresses == [] {
      Seqs.Empty(s);
    } else {
      var rest := addresses[1..];
      Seqs.Assoc(Wire(addresses[0]), WireAll(rest), s);
      WireRoundTrip(addresses[0], WireAll(rest) + s);
      WireStreamRoundTrip(rest, s);
      CanonicalIsEqual(addresses[0]);
    }
  }

  // ---------------------------------------------------------------------------------
  // The object
  // ---------------------------------------------------------------------------------

  class InetAddress {
    var ss: Storage

    /** `new`: the nil address. */
    constructor ()
      ensures ss == ZEROED
    {
      ss := ZEROED;
    }

    method Zero()
      modifies this
      ensures ss == ZEROED
    {
      ss := ZEROED;
    }

    /** Returns the family, or zero for an IP that is neither 4 nor 16 bytes long. */
    method Set(ip: seq<byte>, port: nat) returns (family: nat)
      requires port < 65536
      modifies this
      ensures ss == Built(ip, port)
      ensures family == Family(ss) == if |ip| == 4 then AF_INET else if |ip| == 16 then AF_INET6 else 0
      ensures family != 0 ==> Ip(ss) == ip && Port(ss) == port
      ensures LaidOut(ss, ip, port)
    {
      Zero();
      BuiltBytes(ip, port);
      if |ip| == 4 || |ip| == 16 {
        BuiltFields(ip, port);
      }
      if |ip| == 4 {
        ss := Put(ss, 0, [AF_INET, 0]);
        ss := Put(ss, 2, BigEndian16(port));
        ss := Put(ss, 4, ip);
        family := AF_INET;
      } else if |ip| == 16 {
        ss := Put(ss, 0, [AF_INET6, 0]);
        ss := Put(ss, 2, BigEndian16(port));
        ss := Put(ss, 8, ip);
        family := AF_INET6;
      } else {
        family := 0;
      }
    }

    /** Changes the port and nothing else, and nothing at all on a nil address. */
    method SetPort(port: nat)
      requires port < 65536
      modifies this
      ensures Family(ss) == Family(old(ss)) && Ip(ss) == Ip(old(ss))
      ensures IsIp(ss) ==> Port(ss) == port
      ensures !IsIp(ss) ==> ss == old(ss)
      ensures forall i :: 0 <= i < SIZE && i != 2 && i != 3 ==> ss[i] == old(ss)[i]
    {
      if IsIp(ss) {
        PortRoundTrip(port);
        Seqs.SplicePart(ss, 2, BigEndian16(port), 2, 2);
        Seqs.SplicePart(ss, 2, BigEndian16(port), 4, 4);
        Seqs.SplicePart(ss, 2, BigEndian16(port), 8, 16);
        ss := Put(ss, 2, BigEndian16(port));
      }
    }

    /** Whether this address lies in a range whose number of bits is the port of `cidr`. */
    method IsWithin(cidr: InetAddress) returns (r: Outcome<bool>)
      ensures r == Within(ss, cidr.ss)
      ensures MatchedAs(ss, cidr.ss, r)
    {
      MatchedByCases(ss, cidr.ss);
      if Family(ss) == Family(cidr.ss) {
        var cidrBits := Port(cidr.ss);
        if Family(ss) == AF_INET {
          if cidrBits <= 32 {
            var discardBits := 32 - cidrBits;
            ShiftV4(Ip(ss), Ip(cidr.ss), cidrBits);
            if ShrWrapping(BigEndian(Ip(ss)), discardBits, 32) == ShrWrapping(BigEndian(Ip(cidr.ss)), discardBits, 32) {
              return Returns(true);
            }
          }
        } else if Family(ss) == AF_INET6 {
          if cidrBits <= 128 {
            var a, b := Ip(ss), Ip(cidr.ss);
            ghost var n := cidrBits;
            var p := 0;
            while cidrBits >= 8
              invariant n == 8 * p + cidrBits
              invariant p <= 16 && a[..p] == b[..p]
            {
              cidrBits := cidrBits - 8;
              if a[p] != b[p] {
                DifferenceDecides(ss, cidr.ss, p);
                return Returns(false);
              }
              Seqs.TakeMore(a, p);
              Seqs.TakeMore(b, p);
              p := p + 1;
            }
            var discardBits := 8 - cidrBits;
            if p == 16 {
              Seqs.TakeAll(a);
              Seqs.TakeAll(b);
              PanicsExactly(ss, cidr.ss);
              return Panic; // index out of bounds
            }
            LastByteDecides(ss, cidr.ss, p, cidrBits);
            if ShrWrapping(a[p], discardBits, 8) == ShrWrapping(b[p], discardBits, 8) {
              return Returns(true);
            }
          }
        }
      }
      return Returns(false);
    }

    method WriteBytes(w: seq<byte>) returns (w': seq<byte>)
      ensures w' == w + Wire(ss)
    {
      if Family(ss) == AF_INET {
        w' := w + ([4] + ss[4..8] + [ss[2], ss[3]]);
      } else if Family(ss) == AF_INET6 {
        w' := w + ([6] + ss[8..24] + [ss[2], ss[3]]);
      } else {
        w' := w + [0];
      }
      assert PortBytes(ss) == [ss[2], ss[3]];
    }
  }

  /** The shift wraps to nothing for a range of no bits at all. */
  lemma ShiftV4(x: seq<byte>, y: seq<byte>, n: nat)
    requires |x| == |y| == 4 && n <= 32
    ensures ShrWrapping(BigEndian(x), 32 - n, 32) == ShrWrapping(BigEndian(y), 32 - n, 32) <==>
              SameBits(x, y, if n == 0 then 32 else n)
  {
    var w := if n == 0 then 32 else n;
    ShrUpToWidth(BigEndian(x), 32 - n, 32);
    ShrUpToWidth(BigEndian(y), 32 - n, 32);
    Cidr.ShiftComparesPrefix(x, y, w, Pow2(32 - w));
  }

  /** It wraps in the same way when no part of a byte is left to compare. */
  lemma ShiftV6(x: seq<byte>, y: seq<byte>, p: nat, rest: nat)
    requires |x| == |y| == 16 && p < 16 && rest < 8 && x[..p] == y[..p]
    ensures ShrWrapping(x[p], 8 - rest, 8) == ShrWrapping(y[p], 8 - rest, 8) <==>
              SameBits(x, y, 8 * p + if rest == 0 then 8 else rest)
  {
    var r := if rest == 0 then 8 else rest;
    ShrUpToWidth(x[p], 8 - rest, 8);
    ShrUpToWidth(y[p], 8 - rest, 8);
    Cidr.BytesComparePrefix(x, y, p, r, Pow2(8 - r));
  }

  lemma ByteDiffers(a: seq<byte>, b: seq<byte>, p: nat, n: nat)
    requires |a| == |b| == 16 && p < 16 && 8 * p + 8 <= n <= 128 && a[p] != b[p]
    ensures n < 128 ==> !SameBits(a, b, if n % 8 == 0 then n + 8 else n)
  {
    if n < 128 {
      var w := if n % 8 == 0 then n + 8 else n;
      SameBitsShorter(a, b, 8 * p + 8, w);
      assert Quotient(a[p], 1) == a[p] && Quotient(b[p], 1) == b[p];
      Cidr.BytesComparePrefix(a, b, p, 8, 1);
    }
  }

  predicate InV6Range(x: Storage, cidr: Storage, n: nat) {
    Family(x) == Family(cidr) == AF_INET6 && Port(cidr) == n <= 128
  }

  lemma DifferenceDecides(x: Storage, cidr: Storage, p: nat)
    requires InV6Range(x, cidr, Port(cidr)) && p < 16 && 8 * p + 8 <= Port(cidr)
    requires Ip(x)[p] != Ip(cidr)[p]
    ensures Within(x, cidr) == Returns(false)
  {
    ByteDiffers(Ip(x), Ip(cidr), p, Port(cidr));
  }

  lemma LastByteDecides(x: Storage, cidr: Storage, p: nat, rest: nat)
    requires InV6Range(x, cidr, 8 * p + rest) && p < 16 && rest < 8 && Ip(x)[..p] == Ip(cidr)[..p]
    ensures Within(x, cidr)
         == Returns(ShrWrapping(Ip(x)[p], 8 - rest, 8) == ShrWrapping(Ip(cidr)[p], 8 - rest, 8))
  {
    ShiftV6(Ip(x), Ip(cidr), p, rest);
  }

  method ReadBytes(r: Io.Reader) returns (x: Result<InetAddress>)
    modifies r
    ensures x.Ok? <==> Unwire(old(r.data)).Some?
    ensures x.Ok? ==> fresh(x.value) && Unwire(old(r.data)) == Some((x.value.ss, r.data))
  {
    ghost var s := r.data;
    var tag := r.ReadExact(1);
    if tag.UnexpectedEof? {
      return UnexpectedEof;
    }
    assert tag.value[0] == s[0];
    if tag.value[0] == 4 || tag.value[0] == 6 {
      var n := if tag.value[0] == 4 then 4 else 16;
      var b := r.ReadExact(n + 2);
      if b.UnexpectedEof? {
        return UnexpectedEof;
      }
      Seqs.TwoFields(s, n, 2);
      assert b.value[..n] == s[1..1 + n] && b.value[n..] == s[1 + n..3 + n];
      BytesOfPort(b.value[n..]);
      var address := new InetAddress();
      var _ := address.Set(b.value[..n], BigEndian(b.value[n..]));
      return Ok(address);
    } else {
      var address := new InetAddress();
      return Ok(address);
    }
  }
}

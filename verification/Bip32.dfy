/** Hierarchical keys: deriving with the private key and with the public key alone
    (electronfittexxcoin/bitcoin.py:987-1021, electronfittexxcoin/bitcoin.py:1158-1199,
    electronfittexxcoin/keystore.py:284-312, electronfittexxcoin/keystore.py:375-418).
    Curve operations, HMAC and hash160 are given functions; what is needed of the curve is GroupLaws. */
module Bip32 {
  import opened Arith

  type Bytes = seq<nat>

  /** The code uses 32 bits of an index; the highest one marks a hardened child. */
  type Index = i: nat | i < 0x1_0000_0000

  const PRIME: Index := 0x8000_0000

  datatype Result<T> = Ok(value: T) | Failed

  datatype Point = Infinity | Affine(x: nat, y: nat)

  /** What is authenticated: the private key and the index, or the public key and the index. */
  datatype Message = OfSecret(k: nat, n: Index) | OfPublic(cK: Bytes, n: Index)

  datatype Crypto = Crypto(
    order: nat,
    times: nat -> Point,
    add: (Point, Point) -> Point,
    ser: Point -> Bytes,
    parse: Bytes -> Result<Point>,
    hmac: (Bytes, Message) -> (nat, Bytes),
    hash160: Bytes -> Bytes)

  /** Multiples of the generator: a homomorphism whose kernel is the multiples of the order, and
      serialised points can be read back. */
  ghost predicate GroupLaws(x: Crypto) {
    && x.order > 1
    && (forall a: nat, b: nat :: x.times(a + b) == x.add(x.times(a), x.times(b)))
    && (forall a: nat :: x.times(a).Infinity? <==> a % x.order == 0)
    && (forall a: nat :: !x.times(a).Infinity? ==> x.parse(x.ser(x.times(a))) == Ok(x.times(a)))
  }

  /** No two keys and messages give the same chain code. */
  ghost predicate CollisionFree(x: Crypto) {
    forall c, m, c', m' :: x.hmac(c, m).1 == x.hmac(c', m').1 ==> c == c' && m == m'
  }

  /** A keyed message spelled out. */
  function Spelled(c: Bytes, m: Message): Bytes {
    match m
    case OfSecret(k, n) => [0, k, n] + c
    case OfPublic(cK, n) => [1, |cK|, n] + cK + c
  }

  lemma SpelledApart(c: Bytes, m: Message, c': Bytes, m': Message)
    requires Spelled(c, m) == Spelled(c', m')
    ensures c == c' && m == m'
  {
    var (s, s') := (Spelled(c, m), Spelled(c', m'));
    assert s[0] == s'[0] && s[1] == s'[1] && s[2] == s'[2];
    if m.OfSecret? {
      assert s[3..] == c && s'[3..] == c';
    } else {
      var k := 3 + |m.cK|;
      assert s[3..k] == m.cK && s'[3..k] == m'.cK;
      assert s[k..] == c && s'[k..] == c';
    }
  }

  function Parity(a: nat): Point { if a % 2 == 0 then Infinity else Affine(0, 0) }

  function ParitySum(p: Point, q: Point): Point { if p == q then Infinity else Affine(0, 0) }

  /** The laws can be met: a group of two elements meets them, and spelling the message out collides
      nowhere. */
  lemma LawsConsistent()
    ensures exists x :: GroupLaws(x) && CollisionFree(x)
  {
    var x := Crypto(2, Parity, ParitySum, _ => [1], _ => Ok(Affine(0, 0)), (c, m) => (0, Spelled(c, m)), b => b);
    forall c, m, c', m' | x.hmac(c, m).1 == x.hmac(c', m').1 ensures c == c' && m == m' { SpelledApart(c, m, c', m'); }
    forall a: nat, b: nat ensures x.times(a + b) == x.add(x.times(a), x.times(b)) {
      assert x.times(a + b) == Parity(a + b) && x.times(a) == Parity(a) && x.times(b) == Parity(b);
    }
    forall a: nat ensures x.times(a).Infinity? <==> a % 2 == 0 { assert x.times(a) == Parity(a); }
    forall a: nat ensures !x.times(a).Infinity? ==> x.parse(x.ser(x.times(a))) == Ok(x.times(a)) {
      assert x.times(a) == Parity(a);
    }
    assert GroupLaws(x) && CollisionFree(x);
  }

  lemma MultiplesOfOrder(x: Crypto, a: nat)
    requires GroupLaws(x)
    ensures 0 <= a % x.order && x.times(a % x.order) == x.times(a)
  {
    var (q, r) := (a / x.order, a % x.order);
    DivBounds(a, x.order, 0);
    DivMod(a, x.order);
    MulMonotone(x.order, 0, q);
    var m: nat := q * x.order;
    ModShift(0, q, x.order);
    ModSmall(0, x.order);
    assert x.times(m).Infinity? && x.times(0).Infinity?;
    assert x.times(m + r) == x.add(x.times(m), x.times(r));
    assert x.times(0 + r) == x.add(x.times(0), x.times(r));
  }

  // ---------------------------------------------------------------- one step

  datatype PrivNode = PrivNode(k: nat, c: Bytes)

  datatype PubNode = PubNode(cK: Bytes, c: Bytes)

  /** The highest of the 32 bits marks a hardened child. */
  predicate Hardened(n: Index): (r: bool)
    ensures r <==> n / 0x8000_0000 % 2 == 1
  {
    n >= PRIME
  }

  /** The point at infinity has no serialised form. */
  function SerPoint(x: Crypto, p: Point): Result<Bytes> {
    if p.Infinity? then Failed else Ok(x.ser(p))
  }

  function PublicOf(x: Crypto, k: nat): Result<Bytes> { SerPoint(x, x.times(k)) }

  function CkdPriv(x: Crypto, node: PrivNode, n: Index): Result<PrivNode>
    requires x.order > 0
  {
    match PublicOf(x, node.k)
    case Failed => Failed
    case Ok(cK) =>
      var (left, right) := x.hmac(node.c, if Hardened(n) then OfSecret(node.k, n) else OfPublic(cK, n));
      DivMod(left + node.k, x.order);
      Ok(PrivNode((left + node.k) % x.order, right))
  }

  function CkdPub(x: Crypto, node: PubNode, n: Index): Result<PubNode> {
    if Hardened(n) then Failed
    else
      match x.parse(node.cK)
      case Failed => Failed
      case Ok(p) =>
        var (left, right) := x.hmac(node.c, OfPublic(node.cK, n));
        match SerPoint(x, x.add(x.times(left), p))
        case Failed => Failed
        case Ok(cK) => Ok(PubNode(cK, right))
  }

  /** The public side of a private node. */
  function Neuter(x: Crypto, r: Result<PrivNode>): Result<PubNode> {
    match r
    case Failed => Failed
    case Ok(node) =>
      match PublicOf(x, node.k)
      case Failed => Failed
      case Ok(cK) => Ok(PubNode(cK, node.c))
  }

  function ThenPub(x: Crypto, r: Result<PubNode>, n: Index): Result<PubNode> {
    if r.Failed? then Failed else CkdPub(x, r.value, n)
  }

  function ThenPriv(x: Crypto, r: Result<PrivNode>, n: Index): Result<PrivNode>
    requires x.order > 0
  {
    if r.Failed? then Failed else CkdPriv(x, r.value, n)
  }

  /** A non-hardened step commutes with taking the public side, failures included; a hardened one has no
      public counterpart. */
  lemma StepCommutes(x: Crypto, r: Result<PrivNode>, n: Index)
    requires GroupLaws(x)
    ensures !Hardened(n) ==> ThenPub(x, Neuter(x, r), n) == Neuter(x, ThenPriv(x, r, n))
    ensures Hardened(n) ==> ThenPub(x, Neuter(x, r), n).Failed?
  {
    if !Hardened(n) && r.Ok? && PublicOf(x, r.value.k).Ok? {
      var (k, cK) := (r.value.k, PublicOf(x, r.value.k).value);
      var left := x.hmac(r.value.c, OfPublic(cK, n)).0;
      assert x.times(left + k) == x.add(x.times(left), x.times(k));
      MultiplesOfOrder(x, left + k);
    }
  }

  /** The point of a private child is the parent's point plus the authenticated multiple of the generator,
      hardened or not; the rest of the digest is its chain code. */
  lemma ChildPoint(x: Crypto, node: PrivNode, n: Index)
    requires GroupLaws(x) && CkdPriv(x, node, n).Ok?
    ensures
      var (left, right) := x.hmac(node.c, if n < 0x8000_0000 then OfPublic(x.ser(x.times(node.k)), n) else OfSecret(node.k, n));
      && CkdPriv(x, node, n).value.c == right
      && x.times(CkdPriv(x, node, n).value.k) == x.add(x.times(left), x.times(node.k))
  {
    var left := x.hmac(node.c, if Hardened(n) then OfSecret(node.k, n) else OfPublic(x.ser(x.times(node.k)), n)).0;
    assert x.times(left + node.k) == x.add(x.times(left), x.times(node.k));
    MultiplesOfOrder(x, left + node.k);
  }

  // ---------------------------------------------------------------- different children

  /** Residues tell numbers below the modulus apart, also after adding the same number. */
  lemma SameResidue(t: nat, a: nat, b: nat, p: nat)
    requires a < p && b < p && (t + a) % p == (t + b) % p
    ensures a == b
  {
    var (q, q') := ((t + a) / p, (t + b) / p);
    DivMod(t + a, p);
    DivMod(t + b, p);
    assert a - b == (q - q') * p;
    ResiduesApart(a - b, q - q', p);
  }

  lemma ResiduesApart(d: int, q: int, p: int)
    requires -p < d < p && d == q * p
    ensures d == 0
  {
    if q >= 1 { MulMonotone(p, 1, q); }
    if q <= -1 { MulMonotone(p, q, -1); }
  }

  /** Two private children are the same only if they are the same child of the same node, hardened or not. */
  lemma PrivChildrenDiffer(x: Crypto, a: PrivNode, b: PrivNode, n: Index, m: Index)
    requires x.order > 0 && CollisionFree(x) && a.k < x.order && b.k < x.order
    requires CkdPriv(x, a, n).Ok? && CkdPriv(x, b, m).Ok?
    ensures CkdPriv(x, a, n) == CkdPriv(x, b, m) <==> a == b && n == m
  {
    if CkdPriv(x, a, n) == CkdPriv(x, b, m) {
      var left := x.hmac(a.c, if Hardened(n) then OfSecret(a.k, n) else OfPublic(PublicOf(x, a.k).value, n)).0;
      assert (left + a.k) % x.order == (left + b.k) % x.order;
      SameResidue(left, a.k, b.k, x.order);
    }
  }

  /** The same for public children, of which no two of one node coincide. */
  lemma PubChildrenDiffer(x: Crypto, a: PubNode, b: PubNode, n: Index, m: Index)
    requires CollisionFree(x) && CkdPub(x, a, n).Ok? && CkdPub(x, b, m).Ok?
    ensures CkdPub(x, a, n) == CkdPub(x, b, m) <==> a == b && n == m
  {}

  // ---------------------------------------------------------------- paths

  function PrivPath(x: Crypto, r: Result<PrivNode>, path: seq<Index>): Result<PrivNode>
    requires x.order > 0
  {
    if path == [] then r else ThenPriv(x, PrivPath(x, r, path[..|path| - 1]), path[|path| - 1])
  }

  function PubPath(x: Crypto, r: Result<PubNode>, path: seq<Index>): Result<PubNode> {
    if path == [] then r else ThenPub(x, PubPath(x, r, path[..|path| - 1]), path[|path| - 1])
  }

  predicate NoHardened(path: seq<Index>) { forall i :: 0 <= i < |path| ==> !Hardened(path[i]) }

  /** Along every path without hardened steps, the public side of the privately derived child is the
      publicly derived child. */
  lemma {:induction false} PathCommutes(x: Crypto, r: Result<PrivNode>, path: seq<Index>)
    requires GroupLaws(x) && NoHardened(path)
    ensures PubPath(x, Neuter(x, r), path) == Neuter(x, PrivPath(x, r, path))
  {
    if path != [] {
      var most := path[..|path| - 1];
      PathCommutes(x, r, most);
      StepCommutes(x, PrivPath(x, r, most), path[|path| - 1]);
    }
  }

  /** A hardened step on the way leaves nothing to derive publicly. */
  lemma {:induction false} HardenedStops(x: Crypto, r: Result<PubNode>, path: seq<Index>)
    requires !NoHardened(path)
    ensures PubPath(x, r, path).Failed?
  {
    var most := path[..|path| - 1];
    if !Hardened(path[|path| - 1]) {
      assert path == most + [path[|path| - 1]];
      HardenedStops(x, r, most);
    }
  }

  /** Different paths of one length below a node lead to different private nodes. */
  lemma {:induction false} PathsDiffer(x: Crypto, node: PrivNode, p: seq<Index>, q: seq<Index>)
    requires x.order > 0 && CollisionFree(x) && node.k < x.order && |p| == |q|
    requires PrivPath(x, Ok(node), p).Ok? && PrivPath(x, Ok(node), q).Ok?
    ensures PrivPath(x, Ok(node), p) == PrivPath(x, Ok(node), q) <==> p == q
  {
    if p != [] {
      var (p', q') := (p[..|p| - 1], q[..|q| - 1]);
      PathsDiffer(x, node, p', q');
      ReducedKey(x, node, p');
      ReducedKey(x, node, q');
      PrivChildrenDiffer(x, PrivPath(x, Ok(node), p').value, PrivPath(x, Ok(node), q').value, p[|p| - 1], q[|q| - 1]);
      assert p == p' + [p[|p| - 1]] && q == q' + [q[|q| - 1]];
    }
  }

  lemma ReducedKey(x: Crypto, node: PrivNode, path: seq<Index>)
    requires x.order > 0 && node.k < x.order && PrivPath(x, Ok(node), path).Ok?
    ensures PrivPath(x, Ok(node), path).value.k < x.order
  {
    if path != [] {
      var prev := PrivPath(x, Ok(node), path[..|path| - 1]).value;
      var (cK, n) := (PublicOf(x, prev.k).value, path[|path| - 1]);
      DivMod(x.hmac(prev.c, if Hardened(n) then OfSecret(prev.k, n) else OfPublic(cK, n)).0 + prev.k, x.order);
    }
  }

  method Bip32PrivateKey(x: Crypto, sequence: seq<Index>, k: nat, chain: Bytes) returns (r: Result<nat>)
    requires x.order > 0
    ensures var end := PrivPath(x, Ok(PrivNode(k, chain)), sequence);
            r == if end.Ok? then Ok(end.value.k) else Failed
  {
    var node := Ok(PrivNode(k, chain));
    for i := 0 to |sequence|
      invariant node == PrivPath(x, Ok(PrivNode(k, chain)), sequence[..i])
    {
      assert sequence[..i + 1][..i] == sequence[..i];
      node := ThenPriv(x, node, sequence[i]);
    }
    assert sequence[..|sequence|] == sequence;
    r := if node.Ok? then Ok(node.value.k) else Failed;
  }

  // ---------------------------------------------------------------- extended keys

  /** An extended key: its place in the tree, its chain code and the key. */
  datatype XKey<K> = XKey(xtype: string, depth: nat, fingerprint: Bytes, child: Index, c: Bytes, key: K)

  type XPub = XKey<Bytes>

  type XPrv = XKey<nat>

  /** Reading an extended public key fails when its child 0 cannot be derived. */
  function DeserializeXpub(x: Crypto, key: XPub): Result<PubNode> {
    var node := PubNode(key.key, key.c);
    if CkdPub(x, node, 0).Failed? then Failed else Ok(node)
  }

  function DeserializeXprv(x: Crypto, key: XPrv): Result<PrivNode>
    requires x.order > 0
  {
    var node := PrivNode(key.key, key.c);
    if CkdPriv(x, node, 0).Failed? then Failed else Ok(node)
  }

  /** One byte holds the depth. */
  function Serialize<K>(key: XKey<K>): Result<XKey<K>> { if key.depth > 255 then Failed else Ok(key) }

  /** The library refuses secrets outside 1 .. order - 1. */
  function PubkeyFromSecret(x: Crypto, k: nat): Result<Bytes> {
    if 1 <= k < x.order then PublicOf(x, k) else Failed
  }

  function XpubFromXprv(x: Crypto, key: XPrv): Result<XPub>
    requires x.order > 0
  {
    match DeserializeXprv(x, key)
    case Failed => Failed
    case Ok(node) =>
      match PubkeyFromSecret(x, node.k)
      case Failed => Failed
      case Ok(cK) => Serialize(XKey(key.xtype, key.depth, key.fingerprint, key.child, node.c, cK))
  }

  function ExtendedPub(x: Crypto, key: XPub, path: seq<Index>): Result<XPub>
    requires path != []
  {
    var start := DeserializeXpub(x, key);
    var parent := PubPath(x, start, path[..|path| - 1]);
    var end := PubPath(x, start, path);
    if end.Failed? || parent.Failed? then Failed
    else
      Serialize(XKey(key.xtype, key.depth + |path|, x.hash160(parent.value.cK), path[|path| - 1], end.value.c, end.value.cK))
  }

  function ExtendedPriv(x: Crypto, key: XPrv, path: seq<Index>): Result<XPrv>
    requires path != [] && x.order > 0
  {
    var start := DeserializeXprv(x, key);
    var parent := PrivPath(x, start, path[..|path| - 1]);
    var end := PrivPath(x, start, path);
    if end.Failed? || parent.Failed? then Failed
    else
      var cK := PubkeyFromSecret(x, parent.value.k);
      if cK.Failed? || PubkeyFromSecret(x, end.value.k).Failed? then Failed
      else
        Serialize(XKey(key.xtype, key.depth + |path|, x.hash160(cK.value), path[|path| - 1], end.value.c, end.value.k))
  }

  /** Derives along a non-empty path below the given key. */
  method Bip32PublicDerivation(x: Crypto, key: XPub, path: seq<Index>) returns (r: Result<XPub>)
    requires path != []
    ensures r == ExtendedPub(x, key, path)
  {
    var start := DeserializeXpub(x, key);
    if start.Failed? { StaysFailed(x, path); return Failed; }
    var node := start.value;
    var parent := node.cK;
    var depth := key.depth;
    for i := 0 to |path|
      invariant PubPath(x, start, path[..i]) == Ok(node) && depth == key.depth + i
      invariant i > 0 ==> PubPath(x, start, path[..i - 1]).Ok? && PubPath(x, start, path[..i - 1]).value.cK == parent
    {
      assert path[..i + 1][..i] == path[..i];
      var next := CkdPub(x, node, path[i]);
      if next.Failed? { FailsFrom(x, start, path, i + 1); return Failed; }
      parent := node.cK;
      node := next.value;
      depth := depth + 1;
    }
    assert path[..|path|] == path;
    r := Serialize(XKey(key.xtype, depth, x.hash160(parent), path[|path| - 1], node.c, node.cK));
  }

  lemma {:induction false} StaysFailed(x: Crypto, path: seq<Index>)
    ensures PubPath(x, Failed, path).Failed?
  {
    if path != [] { StaysFailed(x, path[..|path| - 1]); }
  }

  lemma {:induction false} FailsFrom(x: Crypto, r: Result<PubNode>, path: seq<Index>, i: nat)
    requires i <= |path| && PubPath(x, r, path[..i]).Failed?
    ensures PubPath(x, r, path).Failed?
  {
    if i == |path| {
      assert path[..i] == path;
    } else {
      assert path[..|path| - 1][..i] == path[..i];
      FailsFrom(x, r, path[..|path| - 1], i);
    }
  }

  /** An extended private key can be read exactly when its secret has a public key. */
  lemma ReadableXprv(x: Crypto, key: XPrv)
    requires x.order > 0
    ensures DeserializeXprv(x, key) == if x.times(key.key).Infinity? then Failed else Ok(PrivNode(key.key, key.c))
  {}

  /** One step below an extended public key at a path, possibly empty: the child is derived from the key
      there, names that key by its fingerprint, and stands one level deeper under its own index. */
  lemma PubChildNamesParent(x: Crypto, key: XPub, path: seq<Index>, n: Index)
    requires path != [] ==> ExtendedPub(x, key, path).Ok?
    requires ExtendedPub(x, key, path + [n]).Ok?
    ensures
      var (parent, child) := (if path == [] then key else ExtendedPub(x, key, path).value, ExtendedPub(x, key, path + [n]).value);
      && CkdPub(x, PubNode(parent.key, parent.c), n) == Ok(PubNode(child.key, child.c))
      && child.fingerprint == x.hash160(parent.key) && child.child == n
      && child.depth == parent.depth + 1 && child.xtype == parent.xtype
  {
    assert (path + [n])[..|path|] == path;
  }

  /** The same below an extended private key, hardened steps included. */
  lemma PrivChildNamesParent(x: Crypto, key: XPrv, path: seq<Index>, n: Index)
    requires x.order > 0 && (path != [] ==> ExtendedPriv(x, key, path).Ok?)
    requires ExtendedPriv(x, key, path + [n]).Ok?
    ensures
      var (parent, child) := (if path == [] then key else ExtendedPriv(x, key, path).value, ExtendedPriv(x, key, path + [n]).value);
      && CkdPriv(x, PrivNode(parent.key, parent.c), n) == Ok(PrivNode(child.key, child.c))
      && child.fingerprint == x.hash160(x.ser(x.times(parent.key))) && child.child == n
      && child.depth == parent.depth + 1 && child.xtype == parent.xtype
  {
    assert (path + [n])[..|path|] == path;
  }

  /** The same place in the tree, with the public key of the secret. */
  function PublicHalf(x: Crypto, key: XPrv): XPub {
    XKey(key.xtype, key.depth, key.fingerprint, key.child, key.c, x.ser(x.times(key.key)))
  }

  /** Deriving below an extended private key and taking the public key of the result gives what deriving
      below its public key gives, whenever that key can be read and the new one be written. */
  lemma ExtendedKeysCommute(x: Crypto, key: XPrv, path: seq<Index>)
    requires GroupLaws(x) && path != [] && NoHardened(path)
    requires XpubFromXprv(x, key).Ok? && DeserializeXpub(x, XpubFromXprv(x, key).value).Ok?
    ensures var (pub, prv) := (ExtendedPub(x, XpubFromXprv(x, key).value, path), ExtendedPriv(x, key, path));
            && (pub.Ok? <==> prv.Ok?)
            && (prv.Ok? ==> pub.value == PublicHalf(x, prv.value))
  {
    var start := DeserializeXprv(x, key);
    var most := path[..|path| - 1];
    PathCommutes(x, start, path);
    PathCommutes(x, start, most);
    BelowOrder(x, start, path);
    BelowOrder(x, start, most);
  }

  /** Derived secrets are below the order, so the library takes them unless they are zero. */
  lemma BelowOrder(x: Crypto, r: Result<PrivNode>, path: seq<Index>)
    requires GroupLaws(x) && r.Ok? && r.value.k < x.order
    ensures var end := PrivPath(x, r, path);
            end.Ok? ==> end.value.k < x.order && PubkeyFromSecret(x, end.value.k) == PublicOf(x, end.value.k)
  {
    var end := PrivPath(x, r, path);
    if end.Ok? {
      ReducedKey(x, r.value, path);
      ModSmall(end.value.k, x.order);
    }
  }

  // ---------------------------------------------------------------- the keystore

  function Branch(forChange: bool): Index { if forChange then 1 else 0 }

  /** The public key of address n, derived afresh from the master public key. */
  function DerivedPubkey(x: Crypto, xpub: XPub, forChange: bool, n: Index): Result<Bytes> {
    match ExtendedPub(x, xpub, [Branch(forChange)])
    case Failed => Failed
    case Ok(branch) => PubkeyFromXpub(x, branch, [n])
  }

  function PubkeyFromXpub(x: Crypto, key: XPub, sequence: seq<Index>): Result<Bytes> {
    var end := PubPath(x, DeserializeXpub(x, key), sequence);
    if end.Ok? then Ok(end.value.cK) else Failed
  }

  class Keystore {
    const x: Crypto
    var xpub: Result<XPub>
    var xpubReceive: Result<XPub>
    var xpubChange: Result<XPub>
    var xprv: Result<XPrv>

    /** A cached branch is the branch of the present master public key. */
    ghost predicate Valid()
      reads this
    {
      && x.order > 0
      && (xpubReceive.Ok? ==> xpub.Ok? && xpubReceive == ExtendedPub(x, xpub.value, [0]))
      && (xpubChange.Ok? ==> xpub.Ok? && xpubChange == ExtendedPub(x, xpub.value, [1]))
      && (xprv.Ok? ==> xpub.Ok? && xpub == XpubFromXprv(x, xprv.value))
    }

    constructor (crypto: Crypto)
      requires crypto.order > 0
      ensures Valid() && x == crypto && xpub.Failed? && xprv.Failed?
    {
      x := crypto;
      xpub, xpubReceive, xpubChange, xprv := Failed, Failed, Failed, Failed;
    }

    method AddXprv(key: XPrv) returns (ok: bool)
      requires Valid()
      modifies this
      ensures ok <==> XpubFromXprv(x, key).Ok?
      ensures xprv == Ok(key)
      ensures if ok then Valid() && xpub == XpubFromXprv(x, key) else xpub == old(xpub)
    {
      xprv := Ok(key);
      var pub := XpubFromXprv(x, key);
      if pub.Failed? { return false; }
      xpub := pub;
      xpubChange := Failed;
      xpubReceive := Failed;
      ok := true;
    }

    /** Whatever is cached, the key is the one derived afresh. */
    method DerivePubkey(forChange: bool, n: Index) returns (r: Result<Bytes>)
      requires Valid() && xpub.Ok?
      modifies this`xpubReceive, this`xpubChange
      ensures Valid()
      ensures r == DerivedPubkey(x, xpub.value, forChange, n)
    {
      var branch := if forChange then xpubChange else xpubReceive;
      if branch.Failed? {
        branch := Bip32PublicDerivation(x, xpub.value, [Branch(forChange)]);
        if branch.Failed? { return Failed; }
        if forChange { xpubChange := branch; } else { xpubReceive := branch; }
      }
      r := GetPubkeyFromXpub(branch.value, [n]);
    }

    method GetPubkeyFromXpub(key: XPub, sequence: seq<Index>) returns (r: Result<Bytes>)
      ensures r == PubkeyFromXpub(x, key, sequence)
    {
      var start := DeserializeXpub(x, key);
      var node := start;
      for i := 0 to |sequence|
        invariant node == PubPath(x, start, sequence[..i])
      {
        assert sequence[..i + 1][..i] == sequence[..i];
        node := ThenPub(x, node, sequence[i]);
      }
      assert sequence[..|sequence|] == sequence;
      r := if node.Ok? then Ok(node.value.cK) else Failed;
    }

    method GetPrivateKey(sequence: seq<Index>) returns (r: Result<nat>)
      requires Valid() && xprv.Ok?
      ensures r == DerivedSecret(x, xprv.value, sequence)
    {
      var start := DeserializeXprv(x, xprv.value);
      if start.Failed? { return Failed; }
      r := Bip32PrivateKey(x, sequence, start.value.k, start.value.c);
    }
  }

  function DerivedSecret(x: Crypto, key: XPrv, sequence: seq<Index>): Result<nat>
    requires x.order > 0
  {
    var start := DeserializeXprv(x, key);
    if start.Failed? then Failed
    else
      var end := PrivPath(x, start, sequence);
      if end.Ok? then Ok(end.value.k) else Failed
  }

  /** Child 0 of the master key and child 0 of its branch exist, and one more level can be written. */
  predicate CanWatch(x: Crypto, xpub: XPub, forChange: bool) {
    var master := Ok(PubNode(xpub.key, xpub.c));
    PubPath(x, master, [0]).Ok? && PubPath(x, master, [Branch(forChange), 0]).Ok? && xpub.depth < 255
  }

  lemma ShortPaths(x: Crypto, r: Result<PubNode>, b: Index, n: Index)
    ensures PubPath(x, r, [n]) == ThenPub(x, r, n)
    ensures PubPath(x, r, [b, n]) == ThenPub(x, ThenPub(x, r, b), n)
  {
    assert [b, n][..1] == [b] && [b][..0] == [] && [n][..0] == [];
    assert PubPath(x, r, [b]) == ThenPub(x, r, b);
  }

  /** The two readings of extended keys on the way only ask that children 0 exist. */
  lemma WatchingPath(x: Crypto, xpub: XPub, forChange: bool, n: Index)
    ensures var end := PubPath(x, Ok(PubNode(xpub.key, xpub.c)), [Branch(forChange), n]);
            DerivedPubkey(x, xpub, forChange, n) == if CanWatch(x, xpub, forChange) && end.Ok? then Ok(end.value.cK) else Failed
  {
    var (b, master) := (Branch(forChange), Ok(PubNode(xpub.key, xpub.c)));
    ShortPaths(x, master, b, n);
    ShortPaths(x, master, b, 0);
    var start := DeserializeXpub(x, xpub);
    if start.Ok? {
      assert start == master;
      assert [b][..0] == [];
      ShortPaths(x, start, b, b);
      var branch := ExtendedPub(x, xpub, [b]);
      if branch.Ok? { ShortPaths(x, DeserializeXpub(x, branch.value), b, n); }
    }
  }

  /** The watching-only key of an address is the public key of its spending key. It exists whenever the
      spending key has a public key, except when the master key or its branch cannot derive a child 0 or
      the branch would be too deep to write. */
  lemma WatchingMatchesSpending(x: Crypto, key: XPrv, forChange: bool, n: Index)
    requires GroupLaws(x) && XpubFromXprv(x, key).Ok? && !Hardened(n)
    ensures var (xpub, path) := (XpubFromXprv(x, key).value, [if forChange then 1 else 0, n]);
            var (watching, spending) := (DerivedPubkey(x, xpub, forChange, n), DerivedSecret(x, key, path));
            && (watching.Ok? ==> spending.Ok? && PublicOf(x, spending.value) == watching)
            && (spending.Ok? && PublicOf(x, spending.value).Ok? ==> (watching.Ok? <==> CanWatch(x, xpub, forChange)))
  {
    var xpub := XpubFromXprv(x, key).value;
    WatchingPath(x, xpub, forChange, n);
    PathCommutes(x, DeserializeXprv(x, key), [Branch(forChange), n]);
  }
}

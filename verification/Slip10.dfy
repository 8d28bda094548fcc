/** Private key derivation after SLIP-0010 (packages/iov-crypto/src/slip10.ts).

    HMAC-SHA512 and the multiplication of the base point are arbitrary functions of the right
    result sizes. The source repeats a derivation until it yields a usable key; here a number of
    retries is given, and `Undecided` is the outcome when they do not suffice. */
module Slip10 {
  import opened Results
  import opened BigEndian

  type Bytes = seq<byte>

  type Digest = d: Bytes | |d| == 64 witness seq(64, _ => 0)

  datatype Primitives = Primitives(hmacSha512: (Bytes, Bytes) -> Digest, serializedPoint: nat -> Bytes)

  datatype Curve = Secp256k1 | Ed25519

  datatype Node = Node(chainCode: Bytes, privkey: Bytes)

  /** `NormalKeyRefused` stands for the error "Normal keys are not allowed with ed25519". */
  datatype Outcome = Derived(node: Node) | NormalKeyRefused | Undecided

  type RawIndex = i: int | 0 <= i < 0x1_0000_0000

  /** The order of secp256k1. */
  const N: nat := 0xFFFFFFFF_FFFFFFFF_FFFFFFFF_FFFFFFFE_BAAEDCE6_AF48A03B_BFD25E8C_D0364141

  predicate IsHardened(index: RawIndex) {
    index >= 0x8000_0000
  }

  /** The ASCII bytes of the curve's name in SLIP-0010. */
  function CurveKey(curve: Curve): Bytes {
    match curve
    case Secp256k1 => [66, 105, 116, 99, 111, 105, 110, 32, 115, 101, 101, 100]
    case Ed25519 => [101, 100, 50, 53, 53, 49, 57, 32, 115, 101, 101, 100]
  }

  // ----- Derivation -------------------------------------------------------------------------------------------

  function Master(p: Primitives, curve: Curve, seed: Bytes, retries: nat): Outcome
    decreases retries
  {
    var i := p.hmacSha512(CurveKey(curve), seed);
    var il, ir := i[..32], i[32..];
    if curve != Ed25519 && (AllZero(il) || Value(il) >= N)
    then if retries == 0 then Undecided else Master(p, curve, i, retries - 1)
    else Derived(Node(ir, il))
  }

  function ChildInput(p: Primitives, curve: Curve, parent: Node, index: RawIndex): Option<Bytes> {
    if IsHardened(index) then Some([0] + parent.privkey + ToBytes(index, 4))
    else if curve == Ed25519 then None
    else Some(p.serializedPoint(Value(parent.privkey)) + ToBytes(index, 4))
  }

  function Child(p: Primitives, curve: Curve, parent: Node, index: RawIndex, retries: nat): Outcome {
    match ChildInput(p, curve, parent, index)
    case None => NormalKeyRefused
    case Some(data) => ChildImpl(p, curve, parent, index, p.hmacSha512(parent.chainCode, data), retries)
  }

  function ChildKey(il: Bytes, parent: Node): Bytes {
    ToBytes((Value(il) + Value(parent.privkey)) % N, 32)
  }

  predicate Usable(curve: Curve, parent: Node, i: Digest) {
    curve == Ed25519 || !(Value(i[..32]) >= N || AllZero(ChildKey(i[..32], parent)))
  }

  function NextDigest(p: Primitives, parent: Node, index: RawIndex, i: Digest): Digest {
    p.hmacSha512(parent.chainCode, [1] + i[32..] + ToBytes(index, 4))
  }

  function NodeFrom(curve: Curve, parent: Node, i: Digest): Node {
    Node(i[32..], if curve == Ed25519 then i[..32] else ChildKey(i[..32], parent))
  }

  function ChildImpl(p: Primitives, curve: Curve, parent: Node, index: RawIndex, i: Digest, retries: nat): Outcome
    decreases retries
  {
    if Usable(curve, parent, i) then Derived(NodeFrom(curve, parent, i))
    else if retries == 0 then Undecided
    else ChildImpl(p, curve, parent, index, NextDigest(p, parent, index, i), retries - 1)
  }

  /** Follows a path from a node. */
  function Descend(p: Primitives, curve: Curve, start: Outcome, path: seq<RawIndex>, retries: nat): Outcome {
    if path == [] then start
    else
      match Descend(p, curve, start, path[..|path| - 1], retries)
      case Derived(node) => Child(p, curve, node, path[|path| - 1], retries)
      case other => other
  }

  function DerivePath(p: Primitives, curve: Curve, seed: Bytes, path: seq<RawIndex>, retries: nat): Outcome {
    Descend(p, curve, Master(p, curve, seed, retries), path, retries)
  }

  method DerivePathLoop(p: Primitives, curve: Curve, seed: Bytes, path: seq<RawIndex>, retries: nat)
    returns (result: Outcome)
    ensures result == DerivePath(p, curve, seed, path, retries)
  {
    result := Master(p, curve, seed, retries);
    for k := 0 to |path|
      invariant result == DerivePath(p, curve, seed, path[..k], retries)
    {
      assert path[..k + 1][..k] == path[..k];
      if !result.Derived? {
        StaysStuck(p, curve, Master(p, curve, seed, retries), path, k, retries);
        return;
      }
      result := Child(p, curve, result.node, path[k], retries);
    }
    assert path[..|path|] == path;
  }

  /** An error or a missing result ends the derivation. */
  lemma {:induction false} StaysStuck(
    p: Primitives, curve: Curve, start: Outcome, path: seq<RawIndex>, k: nat, retries: nat)
    requires k <= |path| && !Descend(p, curve, start, path[..k], retries).Derived?
    ensures Descend(p, curve, start, path, retries) == Descend(p, curve, start, path[..k], retries)
    decreases |path|
  {
    if k == |path| {
      assert path[..k] == path;
    } else {
      assert path[..|path| - 1][..k] == path[..k];
      StaysStuck(p, curve, start, path[..|path| - 1], k, retries);
    }
  }

  // ----- Keys are in range ----------------------------------------------------------------------------------------

  /** A usable private key: 32 bytes for an integer in [1, n-1] on secp256k1, any 32 bytes on ed25519. */
  predicate GoodNode(curve: Curve, node: Node) {
    && |node.chainCode| == 32
    && |node.privkey| == 32
    && (curve == Secp256k1 ==> 1 <= Value(node.privkey) < N)
  }

  lemma OrderFitsIn32Bytes()
    ensures N < Pow256(32)
  {
    assert Pow256(8) == 0x1_0000_0000_0000_0000;
    assert Pow256(16) == 0x1_0000_0000_0000_0000_0000_0000_0000_0000;
    assert Pow256(24) == 0x1_0000_0000_0000_0000_0000_0000_0000_0000_0000_0000_0000_0000;
    assert Pow256(32) == 0x1_0000_0000_0000_0000_0000_0000_0000_0000_0000_0000_0000_0000_0000_0000_0000_0000;
  }

  lemma {:induction false} MasterIsGood(p: Primitives, curve: Curve, seed: Bytes, retries: nat)
    ensures
      var r := Master(p, curve, seed, retries);
      !r.NormalKeyRefused? && (r.Derived? ==> GoodNode(curve, r.node))
    decreases retries
  {
    var i := p.hmacSha512(CurveKey(curve), seed);
    ZeroIffAllZero(i[..32]);
    if retries > 0 {
      MasterIsGood(p, curve, i, retries - 1);
    }
  }

  lemma ReducedKey(n: nat)
    ensures Value(ToBytes(n % N, 32)) == n % N < N
    ensures AllZero(ToBytes(n % N, 32)) <==> n % N == 0
  {
    OrderFitsIn32Bytes();
    ValueOfBytes(n % N, 32);
    ZeroIffAllZero(ToBytes(n % N, 32));
  }

  /** A usable child key is the sum of the left half and the parent key modulo n, and not zero. */
  lemma {:induction false} UsableIsGood(curve: Curve, parent: Node, i: Digest)
    requires Usable(curve, parent, i)
    ensures GoodNode(curve, NodeFrom(curve, parent, i))
    ensures curve == Secp256k1 ==>
      Value(NodeFrom(curve, parent, i).privkey) == (Value(i[..32]) + Value(parent.privkey)) % N
  {
    if curve == Secp256k1 {
      ReducedKey(Value(i[..32]) + Value(parent.privkey));
    }
  }

  lemma {:induction false} ChildIsGood(
    p: Primitives, curve: Curve, parent: Node, index: RawIndex, i: Digest, retries: nat)
    ensures
      var r := ChildImpl(p, curve, parent, index, i, retries);
      !r.NormalKeyRefused? && (r.Derived? ==> GoodNode(curve, r.node))
    decreases retries
  {
    if Usable(curve, parent, i) {
      UsableIsGood(curve, parent, i);
    } else if retries > 0 {
      ChildIsGood(p, curve, parent, index, NextDigest(p, parent, index, i), retries - 1);
    }
  }

  /** Whatever the hash function yields and however often a step is repeated, a derived secp256k1 key
      is 32 bytes long and encodes an integer in [1, n-1]. */
  lemma {:induction false} DerivedKeysAreGood(
    p: Primitives, curve: Curve, seed: Bytes, path: seq<RawIndex>, retries: nat)
    ensures
      var r := DerivePath(p, curve, seed, path, retries);
      r.Derived? ==>
        && |r.node.chainCode| == 32 && |r.node.privkey| == 32
        && (curve == Secp256k1 ==> 1 <= Value(r.node.privkey) < N)
  {
    if path == [] {
      MasterIsGood(p, curve, seed, retries);
    } else {
      var before, last := path[..|path| - 1], path[|path| - 1];
      DerivedKeysAreGood(p, curve, seed, before, retries);
      var r := DerivePath(p, curve, seed, before, retries);
      if r.Derived? {
        var input := ChildInput(p, curve, r.node, last);
        if input.Some? {
          ChildIsGood(p, curve, r.node, last, p.hmacSha512(r.node.chainCode, input.value), retries);
        }
      }
    }
  }

  // ----- Paths compose ---------------------------------------------------------------------------------------------

  lemma {:induction false} DescendComposes(
    p: Primitives, curve: Curve, start: Outcome, a: seq<RawIndex>, b: seq<RawIndex>, retries: nat)
    ensures Descend(p, curve, start, a + b, retries)
      == Descend(p, curve, Descend(p, curve, start, a, retries), b, retries)
  {
    if b == [] {
      assert a + b == a;
    } else {
      assert (a + b)[..|a + b| - 1] == a + b[..|b| - 1];
      DescendComposes(p, curve, start, a, b[..|b| - 1], retries);
    }
  }

  /** Deriving along a path and then along another is deriving along both. */
  lemma PathsCompose(p: Primitives, curve: Curve, seed: Bytes, a: seq<RawIndex>, b: seq<RawIndex>, retries: nat)
    ensures DerivePath(p, curve, seed, a + b, retries)
      == Descend(p, curve, DerivePath(p, curve, seed, a, retries), b, retries)
  {
    DescendComposes(p, curve, Master(p, curve, seed, retries), a, b, retries);
  }

  // ----- ed25519 ---------------------------------------------------------------------------------------------------

  /** On ed25519 a derivation never needs a retry; it succeeds if and only if every index of the path is
      hardened, and is refused otherwise. */
  lemma {:induction false} Ed25519NeedsHardenedPaths(p: Primitives, seed: Bytes, path: seq<RawIndex>, retries: nat)
    ensures
      var r := DerivePath(p, Ed25519, seed, path, retries);
      && (r.Derived? <==> forall k | 0 <= k < |path| :: path[k] >= 0x8000_0000)
      && (r.Derived? || r.NormalKeyRefused?)
  {
    if path != [] {
      Ed25519NeedsHardenedPaths(p, seed, path[..|path| - 1], retries);
    }
  }

  // ----- Retries ---------------------------------------------------------------------------------------------------

  /** The digest of the k-th attempt. */
  ghost function Attempt(p: Primitives, parent: Node, index: RawIndex, i: Digest, k: nat): Digest {
    if k == 0 then i else NextDigest(p, parent, index, Attempt(p, parent, index, i, k - 1))
  }

  lemma {:induction false} AttemptShift(p: Primitives, parent: Node, index: RawIndex, i: Digest, k: nat)
    ensures Attempt(p, parent, index, NextDigest(p, parent, index, i), k) == Attempt(p, parent, index, i, k + 1)
  {
    if k > 0 {
      AttemptShift(p, parent, index, i, k - 1);
    }
  }

  /** A child comes from the first usable attempt; there is no result if and only if no attempt within
      the retries is usable. */
  lemma {:induction false} FirstUsableAttempt(
    p: Primitives, curve: Curve, parent: Node, index: RawIndex, i: Digest, retries: nat) returns (k: nat)
    ensures k <= retries + 1
    ensures forall j | 0 <= j < k :: !Usable(curve, parent, Attempt(p, parent, index, i, j))
    ensures ChildImpl(p, curve, parent, index, i, retries) ==
      if k <= retries then Derived(NodeFrom(curve, parent, Attempt(p, parent, index, i, k))) else Undecided
    ensures k <= retries ==> Usable(curve, parent, Attempt(p, parent, index, i, k))
    decreases retries
  {
    if Usable(curve, parent, i) {
      k := 0;
    } else if retries == 0 {
      k := 1;
    } else {
      var next := NextDigest(p, parent, index, i);
      var l := FirstUsableAttempt(p, curve, parent, index, next, retries - 1);
      k := l + 1;
      AttemptShift(p, parent, index, i, l);
      forall j | 0 <= j < k
        ensures !Usable(curve, parent, Attempt(p, parent, index, i, j))
      {
        if j > 0 {
          AttemptShift(p, parent, index, i, j - 1);
        }
      }
    }
  }

  lemma {:induction false} MasterIgnoresSpareRetries(p: Primitives, curve: Curve, seed: Bytes, retries: nat, more: nat)
    requires retries <= more && !Master(p, curve, seed, retries).Undecided?
    ensures Master(p, curve, seed, more) == Master(p, curve, seed, retries)
    decreases retries
  {
    if retries > 0 {
      var i := p.hmacSha512(CurveKey(curve), seed);
      if curve != Ed25519 && (AllZero(i[..32]) || Value(i[..32]) >= N) {
        MasterIgnoresSpareRetries(p, curve, i, retries - 1, more - 1);
      }
    }
  }

  lemma {:induction false} ChildIgnoresSpareRetries(
    p: Primitives, curve: Curve, parent: Node, index: RawIndex, i: Digest, retries: nat, more: nat)
    requires retries <= more && !ChildImpl(p, curve, parent, index, i, retries).Undecided?
    ensures ChildImpl(p, curve, parent, index, i, more) == ChildImpl(p, curve, parent, index, i, retries)
    decreases retries
  {
    if retries > 0 && !Usable(curve, parent, i) {
      ChildIgnoresSpareRetries(p, curve, parent, index, NextDigest(p, parent, index, i), retries - 1, more - 1);
    }
  }

  /** An outcome that is reached does not depend on how many retries were allowed. */
  lemma {:induction false} SpareRetriesDoNotMatter(
    p: Primitives, curve: Curve, seed: Bytes, path: seq<RawIndex>, retries: nat, more: nat)
    requires retries <= more && !DerivePath(p, curve, seed, path, retries).Undecided?
    ensures DerivePath(p, curve, seed, path, more) == DerivePath(p, curve, seed, path, retries)
  {
    if path == [] {
      MasterIgnoresSpareRetries(p, curve, seed, retries, more);
    } else {
      var before, last := path[..|path| - 1], path[|path| - 1];
      SpareRetriesDoNotMatter(p, curve, seed, before, retries, more);
      var r := DerivePath(p, curve, seed, before, retries);
      if r.Derived? {
        var input := ChildInput(p, curve, r.node, last);
        if input.Some? {
          ChildIgnoresSpareRetries(p, curve, r.node, last, p.hmacSha512(r.node.chainCode, input.value), retries, more);
        }
      }
    }
  }

  // ----- What is hashed, byte by byte ----------------------------------------------------------------------------

  /** n = 2^256 - 0x14551231950B75FC4402DA1732FC9BEBF, as the curve's standard gives it. */
  lemma OrderOfTheCurve()
    ensures N + 0x1_45512319_50B75FC4_402DA173_2FC9BEBF == Pow256(32)
  {
    assert Pow256(8) == 0x1_0000_0000_0000_0000;
    assert Pow256(16) == 0x1_0000_0000_0000_0000_0000_0000_0000_0000;
    assert Pow256(24) == 0x1_0000_0000_0000_0000_0000_0000_0000_0000_0000_0000_0000_0000;
  }

  lemma IndexBytes(index: RawIndex, b: Bytes)
    requires |b| == 4 && Value(b) == index
    ensures ToBytes(index, 4) == b
  {
    assert Pow256(4) == 0x1_0000_0000 by { assert Pow256(2) == 0x1_0000; }
    ValueOfBytes(index, 4);
    SameValueSameBytes(ToBytes(index, 4), b);
  }

  /** The bytes of an ASCII text. */
  ghost predicate IsAscii(bytes: Bytes, text: string) {
    |bytes| == |text| && forall i | 0 <= i < |text| :: bytes[i] as int == text[i] as int
  }

  /** The master node is the right and the left half of the HMAC of the seed, keyed with the curve's name; for
      secp256k1 the digest becomes the seed of another attempt while its left half is not in [1, n-1]. */
  lemma MasterNode(p: Primitives, curve: Curve, seed: Bytes, retries: nat, key: Bytes)
    requires IsAscii(key, match curve case Secp256k1 => "Bitcoin seed" case Ed25519 => "ed25519 seed")
    ensures
      var i := p.hmacSha512(key, seed);
      Master(p, curve, seed, retries) ==
        if curve == Ed25519 || 1 <= Value(i[..32]) < N then Derived(Node(i[32..], i[..32]))
        else if retries > 0 then Master(p, curve, i, retries - 1)
        else Undecided
  {
    assert key == CurveKey(curve);
    ZeroIffAllZero(p.hmacSha512(key, seed)[..32]);
  }

  /** A hardened child comes from a zero byte, the parent key and the index. */
  lemma HardenedChild(p: Primitives, curve: Curve, parent: Node, index: RawIndex, b: Bytes, retries: nat)
    requires index >= 0x8000_0000 && |b| == 4 && Value(b) == index
    ensures Child(p, curve, parent, index, retries)
         == ChildImpl(p, curve, parent, index, p.hmacSha512(parent.chainCode, [0] + parent.privkey + b), retries)
  {
    IndexBytes(index, b);
  }

  /** A normal child comes from the serialized point of the parent key and the index; ed25519 refuses it. */
  lemma NormalChild(p: Primitives, parent: Node, index: RawIndex, b: Bytes, retries: nat)
    requires index < 0x8000_0000 && |b| == 4 && Value(b) == index
    ensures
      var i := p.hmacSha512(parent.chainCode, p.serializedPoint(Value(parent.privkey)) + b);
      Child(p, Secp256k1, parent, index, retries) == ChildImpl(p, Secp256k1, parent, index, i, retries)
    ensures Child(p, Ed25519, parent, index, retries) == NormalKeyRefused
  {
    IndexBytes(index, b);
  }

  /** On ed25519 the two halves of the digest are the chain code and the key. */
  lemma Ed25519Child(p: Primitives, parent: Node, index: RawIndex, i: Digest, retries: nat)
    ensures ChildImpl(p, Ed25519, parent, index, i, retries) == Derived(Node(i[32..], i[..32]))
  {
  }

  /** On secp256k1 the key is the sum of the left half and the parent key modulo n. If the left half is not below
      n or the sum is zero, the next attempt is made from a byte 1, the right half and the index. */
  lemma Secp256k1Child(p: Primitives, parent: Node, index: RawIndex, i: Digest, b: Bytes, retries: nat)
    requires |b| == 4 && Value(b) == index
    ensures
      var sum := (Value(i[..32]) + Value(parent.privkey)) % N;
      var r := ChildImpl(p, Secp256k1, parent, index, i, retries);
      if Value(i[..32]) < N && sum != 0
      then r.Derived? && r.node.chainCode == i[32..] && |r.node.privkey| == 32 && Value(r.node.privkey) == sum
      else if retries == 0 then r == Undecided
      else
        var next := p.hmacSha512(parent.chainCode, [1] + i[32..] + b);
        r == ChildImpl(p, Secp256k1, parent, index, next, retries - 1)
  {
    IndexBytes(index, b);
    ReducedKey(Value(i[..32]) + Value(parent.privkey));
  }
}

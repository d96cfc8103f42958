/** The type fingerprint of the generated LCM code (lcmtest2_cross_package_t.c:12-40):
    hash_recursive over a graph of message types, and the caching get_hash. */
module LcmHash {
  import opened Words

  const TWO63 := 0x8000_0000_0000_0000
  const TWO64 := 0x1_0000_0000_0000_0000

  /** (hash << 1) + ((hash >> 63) & 1) */
  function RotateLeft(h: U64): U64 {
    (2 * h) % TWO64 + h / TWO63
  }

  function RotateRight(h: U64): U64 {
    h / 2 + (h % 2) * TWO63
  }

  /** One bit to the left, the top bit coming round; and back. */
  lemma RotationIsInvertible(h: U64)
    ensures RotateLeft(h) == if h < TWO63 then 2 * h else 2 * h - TWO64 + 1
    ensures RotateRight(RotateLeft(h)) == h
    ensures RotateLeft(RotateRight(h)) == h
  {
    if h >= TWO63 {
      assert (2 * h) % TWO64 == 2 * h - TWO64;
    }
  }

  // ----- type graphs -----

  type Name = nat

  /** A field of a primitive type contributes a fixed number, one of a message
      type the recursive hash of that type. */
  datatype Field = Primitive(hash: U64) | Message(name: Name)

  datatype Type = Type(base: U64, fields: seq<Field>)

  type Graph = map<Name, Type>

  /** Every message type a field names is defined. */
  predicate Closed(g: Graph, names: set<Name>) {
    names <= g.Keys &&
    forall t, i :: t in names && 0 <= i < |g[t].fields| && g[t].fields[i].Message? ==> g[t].fields[i].name in names
  }

  /** __lcm_hash_ptr: the types being hashed, innermost first. */
  datatype Chain = Null | Link(v: Name, parent: Chain)

  function Names(c: Chain): set<Name> {
    match c
    case Null => {}
    case Link(v, parent) => {v} + Names(parent)
  }

  predicate On(c: Chain, t: Name) {
    t in Names(c)
  }

  lemma SmallerRest(g: Graph, c: Chain, t: Name)
    requires t in g && !On(c, t)
    ensures |g.Keys - Names(Link(t, c))| < |g.Keys - Names(c)|
  {
    var a := g.Keys - Names(c);
    assert g.Keys - Names(Link(t, c)) == a - {t};
    assert t in a;
  }

  /** hash_recursive terminates on any finite graph, cyclic or not, because the chain never repeats a type. */
  function HashRecursive(g: Graph, t: Name, p: Chain): U64
    requires Closed(g, g.Keys) && t in g
    decreases |g.Keys - Names(p)|, 1, 0
  {
    if On(p, t) then 0
    else
      SmallerRest(g, p, t);
      RotateLeft((g[t].base + FieldSum(g, g[t].fields, Link(t, p))) % TWO64)
  }

  function FieldSum(g: Graph, fs: seq<Field>, p: Chain): nat
    requires Closed(g, g.Keys) && forall i :: 0 <= i < |fs| && fs[i].Message? ==> fs[i].name in g
    decreases |g.Keys - Names(p)|, 2, |fs|
  {
    if fs == [] then 0
    else
      var f := fs[|fs| - 1];
      FieldSum(g, fs[..|fs| - 1], p) + match f
        case Primitive(h) => h
        case Message(u) => HashRecursive(g, u, p)
  }

  function Fingerprint(g: Graph, t: Name): U64
    requires Closed(g, g.Keys) && t in g
  {
    HashRecursive(g, t, Null)
  }

  // ----- what the fingerprint depends on -----

  /** Two chains look alike to every type of a set. */
  predicate Alike(p: Chain, q: Chain, s: set<Name>) {
    forall u :: u in s ==> (On(p, u) <==> On(q, u))
  }

  /** Only which of the types below t are on the chain matters, not their order
      or repetition, nor any type t does not lead to. */
  lemma {:induction false} ChainMattersOnlyBelow(g: Graph, s: set<Name>, t: Name, p: Chain, q: Chain)
    requires Closed(g, g.Keys) && Closed(g, s) && t in s && Alike(p, q, s)
    ensures HashRecursive(g, t, p) == HashRecursive(g, t, q)
    decreases |g.Keys - Names(p)|, 1, 0
  {
    hide *;
    FieldsIn(g, s, t);
    AlikeLink(p, q, s, t);
    if !On(p, t) {
      SmallerRest(g, p, t);
      SumMattersOnlyBelow(g, s, g[t].fields, Link(t, p), Link(t, q));
    }
    HashFromSum(g, t, p, q);
  }

  lemma HashFromSum(g: Graph, t: Name, p: Chain, q: Chain)
    requires Closed(g, g.Keys) && t in g && (On(p, t) <==> On(q, t))
    requires !On(p, t) ==> FieldSum(g, g[t].fields, Link(t, p)) == FieldSum(g, g[t].fields, Link(t, q))
    ensures HashRecursive(g, t, p) == HashRecursive(g, t, q)
  {
  }

  lemma FieldsIn(g: Graph, s: set<Name>, t: Name)
    requires Closed(g, s) && t in s
    ensures t in g && forall i :: 0 <= i < |g[t].fields| && g[t].fields[i].Message? ==> g[t].fields[i].name in s
    ensures s <= g.Keys
  {
  }

  lemma AlikeLink(p: Chain, q: Chain, s: set<Name>, t: Name)
    requires Alike(p, q, s)
    ensures Alike(Link(t, p), Link(t, q), s)
    ensures t in s ==> (On(p, t) <==> On(q, t))
  {
  }

  lemma {:induction false} SumMattersOnlyBelow(g: Graph, s: set<Name>, fs: seq<Field>, p: Chain, q: Chain)
    requires Closed(g, g.Keys) && Closed(g, s) && Alike(p, q, s)
    requires forall i :: 0 <= i < |fs| && fs[i].Message? ==> fs[i].name in s
    ensures FieldSum(g, fs, p) == FieldSum(g, fs, q)
    decreases |g.Keys - Names(p)|, 2, |fs|
  {
    if fs != [] {
      var n := |fs| - 1;
      SumMattersOnlyBelow(g, s, fs[..n], p, q);
      if fs[n].Message? {
        ChainMattersOnlyBelow(g, s, fs[n].name, p, q);
      }
    }
  }

  /** A nested type contributes its own fingerprint, unless it leads back to a type being hashed. */
  lemma NestedHashIsFingerprint(g: Graph, s: set<Name>, t: Name, p: Chain)
    requires Closed(g, g.Keys) && Closed(g, s) && t in s && forall u :: u in s ==> !On(p, u)
    ensures HashRecursive(g, t, p) == Fingerprint(g, t)
  {
    ChainMattersOnlyBelow(g, s, t, p, Null);
  }

  function PrimitiveSum(fs: seq<Field>): nat {
    if fs == [] then 0
    else PrimitiveSum(fs[1..]) + if fs[0].Primitive? then fs[0].hash else 0
  }

  lemma {:induction false} PrimitiveSumSplit(fs: seq<Field>)
    requires fs != []
    ensures PrimitiveSum(fs) == PrimitiveSum(fs[..|fs| - 1]) + PrimitiveSum(fs[|fs| - 1..])
  {
    var n := |fs| - 1;
    if n > 0 {
      PrimitiveSumSplit(fs[1..]);
      assert fs[1..][..n - 1] == fs[..n][1..] && fs[1..][n - 1..] == fs[n..];
    } else {
      assert fs[n..] == fs;
    }
  }

  /** Fields of types on the chain add nothing. */
  lemma {:induction false} OnChainAddsNothing(g: Graph, fs: seq<Field>, p: Chain)
    requires Closed(g, g.Keys) && forall i :: 0 <= i < |fs| && fs[i].Message? ==> fs[i].name in g && On(p, fs[i].name)
    ensures FieldSum(g, fs, p) == PrimitiveSum(fs)
    decreases |fs|
  {
    if fs != [] {
      var n := |fs| - 1;
      OnChainAddsNothing(g, fs[..n], p);
      PrimitiveSumSplit(fs);
      assert fs[n..] == [fs[n]] && fs[n..][1..] == [];
    }
  }

  /** The fingerprint of a type with fields of primitive types and of its own type only, in
      numbers: its base number and those of the primitive fields, one bit to the left. */
  lemma OwnFingerprint(g: Graph, t: Name)
    requires Closed(g, g.Keys) && t in g
    requires forall i :: 0 <= i < |g[t].fields| && g[t].fields[i].Message? ==> g[t].fields[i].name == t
    ensures var n := (g[t].base + PrimitiveSum(g[t].fields)) % TWO64;
      Fingerprint(g, t) == if n < TWO63 then 2 * n else 2 * n - TWO64 + 1
  {
    OnChainAddsNothing(g, g[t].fields, Link(t, Null));
    SmallerRest(g, Null, t);
    RotationIsInvertible((g[t].base + PrimitiveSum(g[t].fields)) % TWO64);
    hide RotateLeft;
  }

  /** Redefining a type on the chain changes nothing below it. */
  lemma {:induction false} RedefinitionUnseen(g: Graph, t: Name, base: U64, u: Name, p: Chain)
    requires Closed(g, g.Keys) && t in g && u in g && On(p, t)
    requires Closed(Redefine(g, t, base), g.Keys)
    ensures HashRecursive(Redefine(g, t, base), u, p) == HashRecursive(g, u, p)
    decreases |g.Keys - Names(p)|, 1, 0
  {
    if !On(p, u) {
      SmallerRest(g, p, u);
      RedefinitionUnseenSum(g, t, base, g[u].fields, Link(u, p));
    }
  }

  lemma {:induction false} RedefinitionUnseenSum(g: Graph, t: Name, base: U64, fs: seq<Field>, p: Chain)
    requires Closed(g, g.Keys) && t in g && On(p, t)
    requires Closed(Redefine(g, t, base), g.Keys)
    requires forall i :: 0 <= i < |fs| && fs[i].Message? ==> fs[i].name in g
    ensures FieldSum(Redefine(g, t, base), fs, p) == FieldSum(g, fs, p)
    decreases |g.Keys - Names(p)|, 2, |fs|
  {
    if fs != [] {
      var n := |fs| - 1;
      RedefinitionUnseenSum(g, t, base, fs[..n], p);
      if fs[n].Message? {
        RedefinitionUnseen(g, t, base, fs[n].name, p);
      }
    }
  }

  /** g with another base number for t. */
  function Redefine(g: Graph, t: Name, base: U64): (r: Graph)
    requires t in g
    ensures r.Keys == g.Keys
  {
    g[t := Type(base, g[t].fields)]
  }

  lemma ResidueInjective(a: nat, b: nat, n: nat)
    requires a < TWO64 && b < TWO64 && (a + n) % TWO64 == (b + n) % TWO64
    ensures a == b
  {
    var i, j := (a + n) / TWO64, (b + n) / TWO64;
    assert a - b == (i - j) * TWO64;
  }

  /** Any change of a type's own base number changes its fingerprint, even if the type is recursive. */
  lemma BaseDeterminesFingerprint(g: Graph, t: Name, base: U64)
    requires Closed(g, g.Keys) && t in g
    ensures Closed(Redefine(g, t, base), g.Keys)
    ensures Fingerprint(Redefine(g, t, base), t) == Fingerprint(g, t) <==> base == g[t].base
  {
    hide RotateLeft, RotateRight, FieldSum;
    var r := Redefine(g, t, base);
    assert forall u :: u in g ==> r[u].fields == g[u].fields;
    RedefinitionUnseenSum(g, t, base, g[t].fields, Link(t, Null));
    var n := FieldSum(g, g[t].fields, Link(t, Null));
    SmallerRest(g, Null, t);
    RotatedSums(base, g[t].base, n);
    assert Fingerprint(r, t) == RotateLeft((base + n) % TWO64);
    assert Fingerprint(g, t) == RotateLeft((g[t].base + n) % TWO64);
  }

  lemma RotatedSums(a: U64, b: U64, n: nat)
    ensures RotateLeft((a + n) % TWO64) == RotateLeft((b + n) % TWO64) <==> a == b
  {
    RotationIsInvertible((a + n) % TWO64);
    RotationIsInvertible((b + n) % TWO64);
    if RotateLeft((a + n) % TWO64) == RotateLeft((b + n) % TWO64) {
      ResidueInjective(a, b, n);
    }
  }

  // ----- the code -----

  /** The loop that looks for the type on the chain. */
  method OnChain(p: Chain, t: Name) returns (found: bool)
    ensures found <==> On(p, t)
  {
    var fp := p;
    while fp != Null
      invariant On(p, t) <==> On(fp, t)
      decreases fp
    {
      if fp.v == t {
        return true;
      }
      fp := fp.parent;
    }
    return false;
  }

  lemma SumStep(g: Graph, fs: seq<Field>, i: nat, p: Chain, h: nat)
    requires Closed(g, g.Keys) && i < |fs| && forall j :: 0 <= j < |fs| && fs[j].Message? ==> fs[j].name in g
    requires h == if fs[i].Primitive? then fs[i].hash else HashRecursive(g, fs[i].name, p)
    ensures FieldSum(g, fs[..i + 1], p) == FieldSum(g, fs[..i], p) + h
  {
    assert fs[..i + 1][..i] == fs[..i];
  }

  lemma SumOfNone(g: Graph, p: Chain)
    requires Closed(g, g.Keys)
    ensures FieldSum(g, [], p) == 0
  {
  }

  lemma ModAdd(a: nat, h: nat)
    ensures (a % TWO64 + h) % TWO64 == (a + h) % TWO64
  {
  }

  method ComputeHash(g: Graph, t: Name, p: Chain) returns (r: U64)
    requires Closed(g, g.Keys) && t in g
    ensures r == HashRecursive(g, t, p)
    decreases |g.Keys - Names(p)|
  {
    hide RotateLeft, FieldSum;
    var found := OnChain(p, t);
    if found {
      return 0;
    }
    SmallerRest(g, p, t);
    var cp := Link(t, p);
    var hash := g[t].base;
    var i := 0;
    SumOfNone(g, cp);
    while i < |g[t].fields|
      invariant 0 <= i <= |g[t].fields|
      invariant hash == (g[t].base + FieldSum(g, g[t].fields[..i], cp)) % TWO64
      decreases |g[t].fields| - i
    {
      var f := g[t].fields[i];
      var h := 0;
      match f {
        case Primitive(c) => h := c;
        case Message(u) => h := ComputeHash(g, u, cp);
      }
      SumStep(g, g[t].fields, i, cp, h);
      ModAdd(g[t].base + FieldSum(g, g[t].fields[..i], cp), h);
      hash := (hash + h) % TWO64;
      i := i + 1;
    }
    assert g[t].fields[..i] == g[t].fields;
    return RotateLeft(hash);
  }

  /** The static variables behind get_hash, for all types. */
  class Cache {
    const g: Graph
    var hashes: map<Name, U64>

    ghost predicate Valid()
      reads this
    {
      Closed(g, g.Keys) && forall t :: t in hashes ==> t in g && hashes[t] == Fingerprint(g, t)
    }

    constructor (g: Graph)
      requires Closed(g, g.Keys)
      ensures Valid() && this.g == g && hashes == map[]
    {
      this.g := g;
      hashes := map[];
    }

    /** Whatever was asked before, the answer is the one recomputation would give. */
    method GetHash(t: Name) returns (r: U64)
      requires Valid() && t in g
      modifies this
      ensures Valid() && r == Fingerprint(g, t)
      ensures hashes == old(hashes)[t := r]
    {
      if t !in hashes {
        var h := ComputeHash(g, t, Null);
        hashes := hashes[t := h];
      }
      r := hashes[t];
    }
  }
}

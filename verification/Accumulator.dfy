/** The CL-RSA-B accumulator.  Its methods change `value` and the caller's element list in
    place; what the changes mean is stated with the functions of `Updates`. */
module CLRSAB {
  import opened Arithmetic
  import opened Modular
  import opened Options
  import opened Rsa
  import opened Roots
  import opened Sequences
  import opened Updates

  datatype Witness = Membership(u: int)

  /** What the issuer publishes. */
  datatype Update = Insertion | Removal(x: nat)

  /** The caller's `&mut Vec` of accumulated elements. */
  class ElementList {
    var items: seq<nat>

    constructor (items: seq<nat>)
      ensures this.items == items
    {
      this.items := items;
    }
  }

  /** `retain`: the elements that are not in `gone`, in order. */
  function Without(list: seq<nat>, gone: seq<nat>): (r: seq<nat>)
    ensures multiset(r) <= multiset(list)
    ensures forall x :: x in r <==> x in list && x !in gone
  {
    if list == [] then []
    else
      assert list == [list[0]] + list[1..];
      if list[0] in gone then Without(list[1..], gone) else [list[0]] + Without(list[1..], gone)
  }

  /** A survivor stays as often as it was there. */
  lemma {:induction false} WithoutKeepsCount(list: seq<nat>, gone: seq<nat>, x: nat)
    ensures multiset(Without(list, gone))[x] == if x in gone then 0 else multiset(list)[x]
  {
    if list == [] {
    } else {
      WithoutKeepsCount(list[1..], gone, x);
      assert list == [list[0]] + list[1..];
    }
  }

  /** The survivors of two parts, one after the other: order is kept. */
  lemma {:induction false} WithoutKeepsOrder(a: seq<nat>, b: seq<nat>, gone: seq<nat>)
    ensures Without(a + b, gone) == Without(a, gone) + Without(b, gone)
  {
    hide Without;
    if a == [] {
      assert a + b == b;
      WithoutNone(gone);
    } else {
      WithoutKeepsOrder(a[1..], b, gone);
      WithoutFirst(a, b, gone);
      ConcatAssociates(if a[0] in gone then [] else [a[0]], Without(a[1..], gone), Without(b, gone));
    }
  }

  lemma WithoutNone(gone: seq<nat>)
    ensures Without([], gone) == []
  {}

  lemma WithoutFirst(a: seq<nat>, b: seq<nat>, gone: seq<nat>)
    requires a != []
    ensures var first := if a[0] in gone then [] else [a[0]];
      && Without(a, gone) == first + Without(a[1..], gone)
      && Without(a + b, gone) == first + Without(a[1..] + b, gone)
  {
    assert (a + b)[1..] == a[1..] + b;
  }

  lemma {:induction false} WithoutTwice(list: seq<nat>, gone: seq<nat>, x: nat)
    ensures Without(Without(list, gone), [x]) == Without(list, gone + [x])
  {
    if list == [] {
    } else {
      WithoutTwice(list[1..], gone, x);
      if list[0] !in gone {
        var rest := Without(list[1..], gone);
        assert ([list[0]] + rest)[1..] == rest;
      }
    }
  }

  /** Filtering only looks at which elements are removed, not at their order or number. */
  lemma {:induction false} WithoutIgnoresOrder(list: seq<nat>, xs: seq<nat>, ys: seq<nat>)
    requires multiset(xs) == multiset(ys)
    ensures Without(list, xs) == Without(list, ys)
  {
    if list == [] {
    } else {
      assert list[0] in xs <==> list[0] in multiset(xs);
      assert list[0] in ys <==> list[0] in multiset(ys);
      WithoutIgnoresOrder(list[1..], xs, ys);
    }
  }

  /** The batch over one order of the items and the loop over any other reach the same value
      and the same list. */
  lemma BatchMatchesLoopInAnyOrder(k: Key, v: int, list: seq<nat>, xs: seq<nat>, ys: seq<nat>)
    requires k.Valid() && Residue(v, k.N()) && Invertible(xs, k.Phi()) && multiset(xs) == multiset(ys)
    ensures Unit(Product(xs), k.Phi()) && Invertible(ys, k.Phi())
    ensures Root(k, v, Product(xs)) == ValueAfter(k, v, ys)
    ensures Without(list, xs) == Without(list, ys)
  {
    hide Unit, Root;
    BatchReachesLoopValue(k, v, xs);
    RemovalsIgnoreOrder(k, v, xs, ys);
    WithoutIgnoresOrder(list, xs, ys);
  }

  lemma {:induction false} WithoutNothing(list: seq<nat>)
    ensures Without(list, []) == list
  {
    if list == [] {
    } else {
      WithoutNothing(list[1..]);
    }
  }

  /** The fold of `remove_batch`: raw multiplication, from the left. */
  function FoldRaw(acc: nat, xs: seq<nat>): nat
    decreases |xs|
  {
    if xs == [] then acc else FoldRaw(acc * xs[0], xs[1..])
  }

  lemma {:induction false} FoldRawIsProduct(acc: nat, xs: seq<nat>)
    ensures FoldRaw(acc, xs) == acc * Product(xs)
    decreases |xs|
  {
    if xs == [] {
    } else {
      FoldRawIsProduct(acc * xs[0], xs[1..]);
      Associate(acc, xs[0], Product(xs[1..]));
    }
  }

  /** The fold of `insert_batch`: every product reduced modulo phi. */
  function FoldReduced(acc: int, xs: seq<nat>, phi: Modulus): int
    decreases |xs|
  {
    if xs == [] then acc else FoldReduced(ModMul(acc, xs[0], phi), xs[1..], phi)
  }

  /** Reducing at every step gives the reduced full product. */
  lemma {:induction false} FoldReducedIsProduct(acc: int, xs: seq<nat>, phi: Modulus)
    requires Residue(acc, phi)
    ensures FoldReduced(acc, xs, phi) == ModMul(acc, Product(xs), phi)
    decreases |xs|
  {
    hide ModMul;
    if xs == [] {
      MulOne(acc, phi);
    } else {
      var rest := Product(xs[1..]);
      FoldReducedIsProduct(ModMul(acc, xs[0], phi), xs[1..], phi);
      MulAssociates(acc, xs[0], rest, phi);
      ReducedProduct(acc, xs[0], rest, phi);
    }
  }

  lemma ReducedProduct(acc: int, x: int, y: int, phi: Modulus)
    ensures ModMul(acc, ModMul(x, y, phi), phi) == ModMul(acc, x * y, phi)
  {
    MulReduced(acc, x * y, phi);
  }

  lemma InverseOfReduced(x: int, phi: Modulus)
    requires Unit(x, phi)
    ensures Unit(x % phi, phi) && Inv(x % phi, phi) == Inv(x, phi)
  {
    hide ModMul, Unit;
    UnitReduced(x, phi);
    MulReduced(x, Inv(x % phi, phi), phi);
    InverseIsUnique(x, Inv(x, phi), Inv(x % phi, phi), phi);
  }

  /** The root that `insert_batch` takes from the product reduced modulo phi is a root for
      the unreduced product of the batch. */
  lemma ReducedBatchRoot(k: Key, v: int, xs: seq<nat>)
    requires k.Valid() && Residue(v, k.N()) && Invertible(xs, k.Phi())
    ensures var batch := FoldReduced(1, xs, k.Phi());
      && Unit(batch, k.Phi())
      && Verifies(k.N(), v, Product(xs), Root(k, v, batch))
      && Root(k, v, batch) == ValueAfter(k, v, xs)
  {
    hide ModMul, Unit, ModPow, NatPow;
    var phi := k.Phi();
    FoldReducedIsProduct(1, xs, phi);
    MulOne(Product(xs), phi);
    ProductInvertible(xs, phi);
    InverseOfReduced(Product(xs), phi);
    RootIsRoot(k, v, Product(xs));
    BatchReachesLoopValue(k, v, xs);
  }

  class Accumulator {
    const modulus: Modulus
    var value: int
    ghost const key: Key

    ghost predicate Valid()
      reads this
    {
      key.Valid() && modulus == key.N() && Residue(value, modulus)
    }

    /** The trapdoor argument the issuer's operations unwrap. */
    ghost predicate Trapdoor(aux: Option<Modulus>) {
      aux == Some(key.Phi())
    }

    constructor (ghost key: Key, modulus: Modulus, value: int)
      requires key.Valid() && modulus == key.N() && Residue(value, modulus)
      ensures Valid() && this.key == key && this.value == value && this.modulus == modulus
    {
      this.key := key;
      this.modulus := modulus;
      this.value := value;
    }

    /** `new_with_elements`: the items are ignored; the primes and the number squared into
        the initial value are the random choices. */
    static method NewWithElements(items: seq<nat>, p: nat, q: nat, sample: nat)
      returns (acc: Accumulator, aux: Option<Modulus>)
      requires Key(p, q).Valid()
      ensures fresh(acc) && acc.Valid() && acc.key == Key(p, q) && acc.Trapdoor(aux)
      ensures acc.value == Square(sample, acc.modulus) == (sample * sample) % acc.modulus
      ensures Unit(sample, acc.modulus) ==>
        QuadraticResidue(acc.value, acc.modulus) && UnitResidue(acc.value, acc.modulus)
    {
      KeyNumbers(Key(p, q));
      var modulus := p * q;
      SquareIsProduct(sample, modulus);
      var phi := (p - 1) * (q - 1);
      if Unit(sample, modulus) {
        SquareIsUnit(sample, modulus);
      }
      acc := new Accumulator(Key(p, q), modulus, Square(sample, modulus));
      aux := Some(phi);
    }

    /** The holder's update.  `item` is only needed for removals. */
    method Update(held: Witness, item: Option<nat>, update: Update) returns (w: Witness)
      requires update.Removal? ==> item.Some?
      ensures update.Insertion? ==> w == held
      ensures update.Removal? ==>
        exists a, b :: LibraryPair(a, b, item.value, update.x)
                       && w.u == UpdatedWitness(modulus, value, held.u, a, b)
    {
      match update
      case Insertion =>
        w := held;
      case Removal(xtilde) =>
        var g, a, b := ExtendedGcd(item.value, xtilde);
        w := Membership(ModMul(ModPow(held.u, b, modulus), ModPow(value, a, modulus), modulus));
        assert LibraryPair(a, b, item.value, xtilde);
    }

    /** Issuance with the trapdoor. */
    method WitnessMem(item: nat, aux: Option<Modulus>, all: ElementList) returns (w: Witness)
      requires Valid() && Trapdoor(aux) && Unit(item, key.Phi())
      ensures w == Membership(Root(key, value, item))
      ensures Verifies(modulus, value, item, w.u)
    {
      var a := Invert(item, aux.value).value;
      w := Membership(ModPow(value, a, modulus));
      RootIsRoot(key, value, item);
    }

    /** For an element the trapdoor inverts, only the witness issued for the current value
        is accepted. */
    method VerifyMem(item: nat, held: Witness) returns (ok: bool)
      ensures ok <==> Verifies(modulus, value, item, held.u)
      ensures Valid() && Unit(item, key.Phi()) && Residue(held.u, modulus) ==>
        (ok <==> held == Membership(Root(key, value, item)))
    {
      ok := ModPow(held.u, item, modulus) == value;
      if Valid() && Unit(item, key.Phi()) && Residue(held.u, modulus) {
        RootIsUnique(key, value, item, held.u);
      }
    }

    // ----- insertion -----

    method Insert(item: nat, aux: Option<Modulus>, all: ElementList)
      returns (issued: Option<Witness>, update: Option<Update>)
      requires Valid() && Trapdoor(aux) && Unit(item, key.Phi())
      modifies all
      ensures all.items == old(all.items) + [item]
      ensures issued == Some(Membership(Root(key, value, item)))
      ensures Verifies(modulus, value, item, issued.value.u)
      ensures update == Some(Insertion)
    {
      all.items := all.items + [item];
      var w := WitnessMem(item, aux, all);
      issued, update := Some(w), Some(Insertion);
    }

    /** The override: one issuance for the product reduced modulo phi, on a copy of the list. */
    method InsertBatch(items: seq<nat>, aux: Option<Modulus>, all: ElementList) returns (update: Option<Update>)
      requires Valid() && Trapdoor(aux) && Invertible(items, key.Phi())
      modifies all
      ensures all.items == old(all.items) + items
      ensures update == Some(Insertion)
    {
      ReducedBatchRoot(key, value, items);
      FoldReducedIsProduct(1, items, aux.value);
      var batch: nat := FoldReduced(1, items, aux.value);
      var elems := new ElementList(all.items);
      all.items := all.items + items;
      var w;
      w, update := Insert(batch, aux, elems);
    }

    /** The trait's default: one insertion per item. */
    method DefaultInsertBatch(items: seq<nat>, aux: Option<Modulus>, all: ElementList) returns (update: Option<Update>)
      requires Valid() && Trapdoor(aux) && Invertible(items, key.Phi())
      modifies all
      ensures all.items == old(all.items) + items
      ensures update == None
    {
      for i := 0 to |items|
        invariant all.items == old(all.items) + items[..i]
      {
        var w, u := Insert(items[i], aux, all);
        assert items[..i + 1] == items[..i] + [items[i]];
      }
      assert items[..|items|] == items;
      update := None;
    }

    // ----- removal -----

    method Remove(item: nat, aux: Option<Modulus>, all: ElementList)
      returns (issued: Option<Witness>, update: Option<Update>)
      requires Valid() && Trapdoor(aux) && Unit(item, key.Phi())
      modifies this`value, all
      ensures Valid() && value == Root(key, old(value), item)
      ensures Verifies(modulus, old(value), item, value)
      ensures all.items == Without(old(all.items), [item])
      ensures issued == None && update == Some(Removal(item))
    {
      var itemInv := Invert(item, aux.value).value;
      RootIsRoot(key, value, item);
      value := ModPow(value, itemInv, modulus);
      all.items := Without(all.items, [item]);
      issued, update := None, Some(Removal(item));
    }

    method UpdateAfterRemove(item: nat, aux: Option<Modulus>, all: ElementList) returns (update: Option<Update>)
      requires Valid() && Trapdoor(aux) && Unit(item, key.Phi())
      modifies this`value, all
      ensures Valid() && value == Root(key, old(value), item)
      ensures Verifies(modulus, old(value), item, value)
      ensures all.items == Without(old(all.items), [item])
      ensures update == Some(Removal(item))
    {
      var itemInv := Invert(item, aux.value).value;
      RootIsRoot(key, value, item);
      value := ModPow(value, itemInv, modulus);
      all.items := Without(all.items, [item]);
      update := Some(Removal(item));
    }

    /** The override: one root of the raw product.  The scratch list, which receives the
        product, is discarded. */
    method RemoveBatch(items: seq<nat>, aux: Option<Modulus>, all: ElementList) returns (update: Option<Update>)
      requires Valid() && Trapdoor(aux) && Invertible(items, key.Phi())
      modifies this`value, all
      ensures Valid() && value == ValueAfter(key, old(value), items)
      ensures Verifies(modulus, old(value), Product(items), value)
      ensures all.items == Without(old(all.items), items)
      ensures update == Some(Removal(Product(items)))
    {
      BatchReachesLoopValue(key, value, items);
      FoldRawIsProduct(1, items);
      var batch := FoldRaw(1, items);
      var elems := new ElementList(all.items + [batch]);
      all.items := Without(all.items, items);
      var w;
      w, update := Remove(batch, aux, elems);
    }

    method UpdateAfterRemoveBatch(items: seq<nat>, aux: Option<Modulus>, all: ElementList) returns (update: Option<Update>)
      requires Valid() && Trapdoor(aux) && Invertible(items, key.Phi())
      modifies this`value, all
      ensures Valid() && value == ValueAfter(key, old(value), items)
      ensures Verifies(modulus, old(value), Product(items), value)
      ensures all.items == Without(old(all.items), items)
      ensures update == Some(Removal(Product(items)))
    {
      BatchReachesLoopValue(key, value, items);
      FoldRawIsProduct(1, items);
      var batch := FoldRaw(1, items);
      var elems := new ElementList(all.items + [batch]);
      all.items := Without(all.items, items);
      update := UpdateAfterRemove(batch, aux, elems);
    }

    /** The trait's default: one removal per item. */
    method DefaultRemoveBatch(items: seq<nat>, aux: Option<Modulus>, all: ElementList) returns (update: Option<Update>)
      requires Valid() && Trapdoor(aux) && Invertible(items, key.Phi())
      modifies this`value, all
      ensures Valid() && value == ValueAfter(key, old(value), items)
      ensures all.items == Without(old(all.items), items)
      ensures update == None
    {
      WithoutNothing(all.items);
      for i := 0 to |items|
        invariant Valid() && value == ValueAfter(key, old(value), items[..i])
        invariant all.items == Without(old(all.items), items[..i])
      {
        assert items[..i + 1] == items[..i] + [items[i]];
        ValueAfterSnoc(key, old(value), items[..i], items[i]);
        WithoutTwice(old(all.items), items[..i], items[i]);
        var w, u := Remove(items[i], aux, all);
      }
      assert items[..|items|] == items;
      update := None;
    }

    method DefaultUpdateAfterRemoveBatch(items: seq<nat>, aux: Option<Modulus>, all: ElementList)
      returns (update: Option<Update>)
      requires Valid() && Trapdoor(aux) && Invertible(items, key.Phi())
      modifies this`value, all
      ensures Valid() && value == ValueAfter(key, old(value), items)
      ensures all.items == Without(old(all.items), items)
      ensures update == None
    {
      WithoutNothing(all.items);
      for i := 0 to |items|
        invariant Valid() && value == ValueAfter(key, old(value), items[..i])
        invariant all.items == Without(old(all.items), items[..i])
      {
        assert items[..i + 1] == items[..i] + [items[i]];
        ValueAfterSnoc(key, old(value), items[..i], items[i]);
        WithoutTwice(old(all.items), items[..i], items[i]);
        var u := UpdateAfterRemove(items[i], aux, all);
      }
      assert items[..|items|] == items;
      update := None;
    }
  }
}

/** Python's built-in dict, restricted to what the model needs: a finite map that
    remembers the order in which its keys were first inserted. */
module OrderedDict {

  datatype Dict<K(==), V> = Dict(order: seq<K>, items: map<K, V>) {

    /** Every key occurs once in `order`, and `order` lists exactly the keys of `items`. */
    ghost predicate Valid() {
      (forall i, j :: 0 <= i < j < |order| ==> order[i] != order[j]) &&
      (forall k :: k in items ==> k in order) &&
      (forall i :: 0 <= i < |order| ==> order[i] in items)
    }

    /** `d[k] = v`: a new key goes last, an existing key keeps its position. */
    function Set(k: K, v: V): (d: Dict<K, V>)
      requires Valid()
      ensures d.Valid()
      ensures d.items == items[k := v]
      ensures k in items ==> d.order == order
      ensures k !in items ==> d.order == order + [k]
    {
      if k in items then Dict(order, items[k := v]) else Dict(order + [k], items[k := v])
    }
  }

  /** Python's None, the value that `dict.fromkeys` and `get_button_dict` store. */
  datatype NoneType = PyNone

  /** Assigning a key the value it already has changes nothing. */
  lemma SetSameValue<K, V>(d: Dict<K, V>, k: K, v: V)
    requires d.Valid() && k in d.items && d.items[k] == v
    ensures d.Set(k, v) == d
  {
    assert d.items[k := v] == d.items;
  }

  /** `{}` */
  function Empty<K(==), V>(): (d: Dict<K, V>)
    ensures d.Valid() && d.order == [] && d.items == map[]
  {
    Dict([], map[])
  }

  /** The position of the first occurrence of `x` in `xs`. */
  function IndexOf<K(==)>(xs: seq<K>, x: K): (r: nat)
    requires x in xs
    ensures r < |xs| && xs[r] == x && x !in xs[..r]
  {
    if xs[0] == x then 0
    else
      var r' := IndexOf(xs[1..], x);
      assert xs[..r' + 1] == [xs[0]] + xs[1..][..r'];
      1 + r'
  }

  /** A first occurrence is the only position holding `x` with no `x` before it. */
  lemma IndexOfUnique<K>(xs: seq<K>, x: K, r: nat)
    requires r < |xs| && xs[r] == x && x !in xs[..r]
    ensures IndexOf(xs, x) == r
  {
    var q := IndexOf(xs, x);
    forall k | 0 <= k < r ensures xs[k] != x {
      assert xs[..r][k] == xs[k];
    }
    forall k | 0 <= k < q ensures xs[k] != x {
      assert xs[..q][k] == xs[k];
    }
  }

  /** Appending an element does not move the first occurrence of anything already present. */
  lemma IndexOfAppend<K>(xs: seq<K>, y: K, x: K)
    requires x in xs || x == y
    ensures x in xs ==> IndexOf(xs + [y], x) == IndexOf(xs, x)
    ensures x !in xs ==> IndexOf(xs + [y], x) == |xs|
  {
    if x in xs {
      var r := IndexOf(xs, x);
      assert (xs + [y])[..r] == xs[..r];
      IndexOfUnique(xs + [y], x, r);
    } else {
      assert (xs + [y])[..|xs|] == xs;
      IndexOfUnique(xs + [y], x, |xs|);
    }
  }

  /** `order` lists elements of `xs` in the order of their first occurrence in `xs`. */
  ghost predicate FirstOccurrenceOrder<K>(order: seq<K>, xs: seq<K>)
  {
    forall i, j :: 0 <= i < j < |order| ==>
      order[i] in xs && order[j] in xs && IndexOf(xs, order[i]) < IndexOf(xs, order[j])
  }

  /** `dict.fromkeys(xs)`: the dict obtained by assigning every element of `xs` in turn. */
  function FromKeys<K(==)>(xs: seq<K>): (d: Dict<K, NoneType>)
    ensures d.Valid()
    ensures forall k :: k in d.items ==> k in xs
    ensures forall i :: 0 <= i < |xs| ==> xs[i] in d.items
  {
    if xs == [] then Empty()
    else
      var p := xs[..|xs| - 1];
      assert xs == p + [xs[|xs| - 1]];
      FromKeys(p).Set(xs[|xs| - 1], PyNone)
  }

  /** The keys of `dict.fromkeys(xs)` are the elements of `xs`, each once, in first-occurrence order. */
  lemma {:induction false} FromKeysOrder<K>(xs: seq<K>)
    ensures FirstOccurrenceOrder(FromKeys(xs).order, xs)
  {
    if xs != [] {
      var p, y := xs[..|xs| - 1], xs[|xs| - 1];
      assert xs == p + [y];
      FromKeysOrder(p);
      var before, after := FromKeys(p).order, FromKeys(xs).order;
      forall i, j | 0 <= i < j < |after|
        ensures after[i] in xs && after[j] in xs && IndexOf(xs, after[i]) < IndexOf(xs, after[j])
      {
        IndexOfAppend(p, y, after[i]);
        IndexOfAppend(p, y, after[j]);
        if j < |before| {
          assert after[i] == before[i] && after[j] == before[j];
        } else {
          assert after[i] == before[i] && after[i] in p;
        }
      }
    }
  }
}

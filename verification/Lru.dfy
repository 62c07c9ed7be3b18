/** A least-recently-used cache with an index by value beside the index by key. */
module Lrus {
  import opened ByteSeq

  // ---------------------------------------------------------------------------------------------
  // What the cache stands for: pairs, the most recently touched first

  type Pairs<K, V> = seq<(K, V)>

  function Keys<K, V>(view: Pairs<K, V>): (r: seq<K>)
    ensures |r| == |view| && forall i :: 0 <= i < |r| ==> r[i] == view[i].0
  {
    seq(|view|, i requires 0 <= i < |view| => view[i].0)
  }

  function Values<K, V>(view: Pairs<K, V>): (r: seq<V>)
    ensures |r| == |view| && forall i :: 0 <= i < |r| ==> r[i] == view[i].1
  {
    seq(|view|, i requires 0 <= i < |view| => view[i].1)
  }

  /** The first place of `x`, or the length. */
  function Index<T(==)>(s: seq<T>, x: T): (i: nat)
    ensures i <= |s| && (i < |s| ==> s[i] == x) && forall j :: 0 <= j < i ==> s[j] != x
    ensures x in s <==> i < |s|
  {
    if s == [] then 0 else if s[0] == x then 0 else 1 + Index(s[1..], x)
  }

  /** Place `i` moved to the front. */
  function ToFront<T>(s: seq<T>, i: nat): seq<T> {
    if i < |s| then [s[i]] + s[..i] + s[i + 1..] else s
  }

  function Putting<K(==), V>(view: Pairs<K, V>, key: K, value: V, capacity: int): Pairs<K, V> {
    var i := Index(Keys(view), key);
    if i < |view| then ToFront(view[i := (key, value)], i)
    else if |view| + 1 > capacity then ([(key, value)] + view)[..|view|]
    else [(key, value)] + view
  }

  ghost predicate NoTwice<T(!new)>(s: seq<T>) {
    forall i, j :: 0 <= i < j < |s| ==> s[i] != s[j]
  }

  /** A put that leaves keys and values paired off: of a live pair, or of a key and a value that are both new. */
  predicate Fair<K(==), V(==)>(view: Pairs<K, V>, key: K, value: V) {
    (key, value) in view || (key !in Keys(view) && value !in Values(view))
  }

  class Element<K, V> {
    const key: K
    var value: V

    constructor (key: K, value: V)
      ensures this.key == key && this.value == value
    {
      this.key, this.value := key, value;
    }
  }

  function PairsOf<K, V>(list: seq<Element<K, V>>): (r: Pairs<K, V>)
    reads list
    ensures |r| == |list| && forall i :: 0 <= i < |list| ==> r[i] == (list[i].key, list[i].value)
  {
    seq(|list|, i requires 0 <= i < |list| reads list => (list[i].key, list[i].value))
  }

  ghost predicate ByKey<K(!new), V>(list: seq<Element<K, V>>, m: map<K, Element<K, V>>) {
    && (forall e :: e in list ==> e.key in m && m[e.key] == e)
    && (forall k :: k in m ==> m[k] in list && m[k].key == k)
  }

  ghost predicate ByValue<K, V(!new)>(list: seq<Element<K, V>>, m: map<V, Element<K, V>>)
    reads list
  {
    && (forall e :: e in list ==> e.value in m && m[e.value] == e)
    && (forall v :: v in m ==> m[v] in list && m[v].value == v)
  }

  ghost predicate ValueTwice<K, V>(list: seq<Element<K, V>>)
    reads list
  {
    exists i :: 0 < i < |list| && list[i].value == list[0].value
  }

  class Lru<K(==,!new), V(==,!new)> {
    const capacity: int
    var list: seq<Element<K, V>>
    var keyToElement: map<K, Element<K, V>>
    var valueToElement: map<V, Element<K, V>>

    constructor (capacity: int)
      ensures Valid() && Consistent() && View() == [] && this.capacity == capacity
    {
      this.capacity := capacity;
      list, keyToElement, valueToElement := [], map[], map[];
    }

    ghost predicate Valid()
      reads this, list
    {
      Indexed() && (|list| <= capacity || list == [])
    }

    /** The index by key is that of the list. */
    ghost predicate Indexed()
      reads this, list
    {
      NoRepeats(list) && ByKey(list, keyToElement)
    }

    /** And the index by value is its inverse. */
    ghost predicate Consistent()
      reads this, list
    {
      ByValue(list, valueToElement)
    }

    function View(): Pairs<K, V>
      reads this, list
    {
      PairsOf(list)
    }

    method MoveToFront(e: Element<K, V>)
      requires Valid() && e in list
      modifies this`list
      ensures Valid() && View() == ToFront(old(View()), Index(Keys(old(View())), e.key))
      ensures (forall x :: x in list <==> x in old(list)) && list[0] == e
      ensures old(Consistent()) ==> Consistent()
    {
      hide Keys, Index, NoRepeats, ToFront, PairsOf, ByKey, ByValue;
      var i :| 0 <= i < |list| && list[i] == e;
      KeyIsThere(i);
      FrontOf(list, i);
      SameIndexes(list, ToFront(list, i), keyToElement, valueToElement);
      list := ToFront(list, i);
    }

    lemma KeyIsThere(i: nat)
      requires Valid() && i < |list|
      ensures Index(Keys(View()), list[i].key) == i
    {
      var j := Index(Keys(View()), list[i].key);
      assert Keys(View())[i] == list[i].key;
      assert list[j].key == list[i].key;
    }

    /**
     * A live key gets the new value and moves to the front, but the index by value stays as it was. A new key goes in
     * front, and the last element leaves if there are too many.
     */
    method Put(key: K, value: V)
      requires Valid()
      modifies this`list, this`keyToElement, this`valueToElement, list
      ensures Valid() && View() == Putting(old(View()), key, value, capacity)
      ensures old(Consistent()) ==> (Consistent() <==> Fair(old(View()), key, value))
      ensures forall e :: e in list ==> e in old(list) || fresh(e)
    {
      KeyIsLive(key);
      if key in keyToElement {
        PutLive(key, value);
      } else {
        PutNew(key, value);
      }
    }

    method PutLive(key: K, value: V)
      requires Valid() && key in keyToElement
      modifies this`list, list
      ensures Valid() && View() == Putting(old(View()), key, value, capacity)
      ensures old(Consistent()) ==> (Consistent() <==> (key, value) in old(View()))
      ensures forall e :: e in list ==> e in old(list)
    {
      hide Keys, Index, ToFront;
      KeyIsLive(key);
      ghost var view, i := View(), Index(Keys(View()), key);
      var element := keyToElement[key];
      element.value := value;
      assert View() == view[i := (key, value)];
      MoveToFront(element);
    }

    method PutNew(key: K, value: V)
      requires Valid() && key !in keyToElement
      modifies this`list, this`keyToElement, this`valueToElement
      ensures Valid() && View() == Putting(old(View()), key, value, capacity)
      ensures old(Consistent()) ==> (Consistent() <==> value !in Values(old(View())))
      ensures forall e :: e in list ==> e in old(list) || fresh(e)
    {
      hide Keys, Values, Index, NoRepeats, PairsOf, Indexed, Consistent, Shadowed;
      KeyIsLive(key);
      var element := new Element(key, value);
      PushFront(element);
      if |list| > capacity {
        RemoveBack();
      }
    }

    /** The first element has a value that another one has, too. */
    ghost predicate Shadowed()
      reads this, list
    {
      ValueTwice(list)
    }

    method PushFront(element: Element<K, V>)
      requires Indexed() && element !in list && element.key !in keyToElement
      modifies this`list, this`keyToElement, this`valueToElement
      ensures Indexed() && |list| == |old(list)| + 1 && View() == [(element.key, element.value)] + old(View())
      ensures forall e :: e in list ==> e in old(list) || e == element
      ensures old(Consistent()) && element.value !in Values(old(View())) ==> Consistent()
      ensures old(Consistent()) && element.value in Values(old(View())) ==> !Consistent() && Shadowed()
    {
      hide Keys, Index, NoRepeats, ByKey, ByValue, ValueTwice;
      InFrontOf(element, list, keyToElement, valueToElement);
      list := [element] + list;
      keyToElement := keyToElement[element.key := element];
      valueToElement := valueToElement[element.value := element];
    }

    method RemoveBack()
      requires Indexed() && list != []
      modifies this`list, this`keyToElement, this`valueToElement
      ensures Indexed() && |list| == |old(list)| - 1 && View() == old(View())[..|list|]
      ensures forall e :: e in list ==> e in old(list)
      ensures old(Consistent()) ==> Consistent()
      ensures old(Shadowed()) ==> !Consistent()
    {
      hide Keys, Index, NoRepeats, ByKey, ByValue, ValueTwice;
      var toBeRemoved := list[|list| - 1];
      BackGone(list, keyToElement, valueToElement);
      list := list[..|list| - 1];
      keyToElement := keyToElement - {toBeRemoved.key};
      valueToElement := valueToElement - {toBeRemoved.value};
    }

    method Get(key: K) returns (value: Option<V>)
      requires Valid()
      modifies this`list
      ensures Valid() && (old(Consistent()) ==> Consistent()) && forall e :: e in list ==> e in old(list)
      ensures var i := Index(Keys(old(View())), key);
              && View() == ToFront(old(View()), i)
              && value == if i < |old(View())| then Some(old(View())[i].1) else None
    {
      hide Keys, Index, NoRepeats, PairsOf, ByKey, ByValue;
      KeyIsLive(key);
      if key in keyToElement {
        var e := keyToElement[key];
        MoveToFront(e);
        return Some(e.value);
      }
      return None;
    }

    lemma KeyIsLive(key: K)
      requires Valid()
      ensures key in keyToElement <==> key in Keys(View())
      ensures key in keyToElement ==>
                var i := Index(Keys(View()), key);
                i < |list| && list[i] == keyToElement[key] && View()[i] == (key, keyToElement[key].value)
    {
      if key in keyToElement {
        var i :| 0 <= i < |list| && list[i] == keyToElement[key];
        KeyIsThere(i);
      }
      if key in Keys(View()) {
        var i := Index(Keys(View()), key);
        assert list[i].key == key;
      }
    }

    /** What the index by value says. An element that has left the list in the meantime is not moved. */
    method GetKeyFromValue(value: V) returns (key: Option<K>)
      requires Valid()
      modifies this`list
      ensures Valid() && forall e :: e in list ==> e in old(list)
      ensures key == if value in valueToElement then Some(valueToElement[value].key) else None
      ensures value !in valueToElement || valueToElement[value] !in old(list) ==> View() == old(View())
      ensures value in valueToElement && valueToElement[value] in old(list) ==>
                View() == ToFront(old(View()), Index(Keys(old(View())), valueToElement[value].key))
      ensures old(Consistent()) ==>
                var i := Index(Values(old(View())), value);
                && Consistent() && View() == ToFront(old(View()), i)
                && key == if i < |old(View())| then Some(old(View())[i].0) else None
    {
      hide Keys, Values, Index, NoRepeats, PairsOf, ByKey, ByValue;
      ValueIsLive(value);
      if value in valueToElement {
        var e := valueToElement[value];
        if e in list {
          MoveToFront(e);
        }
        return Some(e.key);
      }
      return None;
    }

    /** Looks without touching. */
    method PeekKeyFromValue(value: V) returns (key: Option<K>)
      requires Valid()
      ensures key == if value in valueToElement then Some(valueToElement[value].key) else None
      ensures Consistent() ==>
                var i := Index(Values(View()), value);
                key == if i < |View()| then Some(View()[i].0) else None
    {
      ValueIsLive(value);
      if value in valueToElement {
        return Some(valueToElement[value].key);
      }
      return None;
    }

    lemma ValueIsLive(value: V)
      requires Valid()
      ensures Consistent() ==> (value in valueToElement <==> value in Values(View()))
      ensures Consistent() && value in valueToElement ==>
                var i := Index(Values(View()), value);
                i < |list| && list[i] == valueToElement[value] && Index(Keys(View()), list[i].key) == i
    {
      if Consistent() {
        if value in valueToElement {
          var i :| 0 <= i < |list| && list[i] == valueToElement[value];
          assert Values(View())[i] == value;
        }
        if value in Values(View()) {
          var i := Index(Values(View()), value);
          assert list[i].value == value;
          KeyIsThere(i);
        }
      }
    }
  }

  ghost predicate NoRepeats<K, V>(list: seq<Element<K, V>>) {
    forall i, j :: 0 <= i < j < |list| ==> list[i] != list[j]
  }

  /** A new element in front, with its entries. */
  lemma InFrontOf<K(!new), V(!new)>(e: Element<K, V>, list: seq<Element<K, V>>,
                                    byKey: map<K, Element<K, V>>, byValue: map<V, Element<K, V>>)
    requires NoRepeats(list) && ByKey(list, byKey) && e !in list && e.key !in byKey
    ensures NoRepeats([e] + list) && ByKey([e] + list, byKey[e.key := e])
    ensures PairsOf([e] + list) == [(e.key, e.value)] + PairsOf(list)
    ensures ByValue(list, byValue) && e.value !in Values(PairsOf(list)) ==> ByValue([e] + list, byValue[e.value := e])
    ensures ByValue(list, byValue) && e.value in Values(PairsOf(list)) ==>
              ValueTwice([e] + list) && !ByValue([e] + list, byValue[e.value := e])
  {
    hide ByValue, ValueTwice, Values, PairsOf;
    PairsInFront(e, list);
    if ByValue(list, byValue) {
      ValuesInFront(e, list, byValue);
    }
  }

  lemma PairsInFront<K, V>(e: Element<K, V>, list: seq<Element<K, V>>)
    ensures PairsOf([e] + list) == [(e.key, e.value)] + PairsOf(list)
  {
    hide PairsOf;
    var a, b := PairsOf([e] + list), [(e.key, e.value)] + PairsOf(list);
    forall j | 0 <= j < |a|
      ensures a[j] == b[j]
    {
    }
  }

  lemma ValuesInFront<K(!new), V(!new)>(e: Element<K, V>, list: seq<Element<K, V>>, byValue: map<V, Element<K, V>>)
    requires ByValue(list, byValue) && e !in list
    ensures e.value !in Values(PairsOf(list)) ==> ByValue([e] + list, byValue[e.value := e])
    ensures e.value in Values(PairsOf(list)) ==> ValueTwice([e] + list) && !ByValue([e] + list, byValue[e.value := e])
  {
    hide PairsOf, Values;
    var longer, vs := [e] + list, Values(PairsOf(list));
    assert forall i :: 0 <= i < |list| ==> vs[i] == list[i].value;
    if e.value in vs {
      var i := Index(vs, e.value);
      assert longer[i + 1] == list[i] && list[i] in longer;
    } else {
      forall x | x in list
        ensures x.value != e.value
      {
        var i :| 0 <= i < |list| && list[i] == x;
        assert vs[i] == x.value;
      }
      assert forall x :: x in longer <==> x == e || x in list;
    }
  }

  /** The last element leaves, and its entries with it. */
  lemma BackGone<K(!new), V(!new)>(list: seq<Element<K, V>>,
                                   byKey: map<K, Element<K, V>>, byValue: map<V, Element<K, V>>)
    requires NoRepeats(list) && ByKey(list, byKey) && list != []
    ensures var last, front := list[|list| - 1], list[..|list| - 1];
            && NoRepeats(front) && ByKey(front, byKey - {last.key})
            && (ByValue(list, byValue) ==> ByValue(front, byValue - {last.value}))
            && (ValueTwice(list) ==> !ByValue(front, byValue - {last.value}))
  {
    var last, front := list[|list| - 1], list[..|list| - 1];
    assert forall x :: x in front <==> x in list && x != last;
    if ValueTwice(list) {
      var i :| 0 < i < |list| && list[i].value == list[0].value;
      assert list[0] in front && (i < |list| - 1 ==> list[i] in front);
    }
  }

  /** Moving elements moves their pairs. */
  lemma FrontOf<K, V>(list: seq<Element<K, V>>, i: nat)
    requires NoRepeats(list) && i < |list|
    ensures var r := ToFront(list, i);
            && |r| == |list| && NoRepeats(r) && (forall x :: x in r <==> x in list) && r[0] == list[i]
            && PairsOf(r) == ToFront(PairsOf(list), i)
  {
    var r := ToFront(list, i);
    forall x | x in list
      ensures x in r
    {
      var j :| 0 <= j < |list| && list[j] == x;
      assert r[if j < i then j + 1 else if j == i then 0 else j] == x;
    }
    PairsToFront(list, i);
  }

  lemma SameIndexes<K(!new), V(!new)>(a: seq<Element<K, V>>, b: seq<Element<K, V>>,
                                      byKey: map<K, Element<K, V>>, byValue: map<V, Element<K, V>>)
    requires forall x :: x in a <==> x in b
    ensures ByKey(a, byKey) <==> ByKey(b, byKey)
    ensures ByValue(a, byValue) <==> ByValue(b, byValue)
  {
  }

  lemma PairsToFront<K, V>(list: seq<Element<K, V>>, i: nat)
    requires i < |list|
    ensures PairsOf(ToFront(list, i)) == ToFront(PairsOf(list), i)
  {
    hide PairsOf;
    var a, b := PairsOf(ToFront(list, i)), ToFront(PairsOf(list), i);
    forall j | 0 <= j < |list|
      ensures a[j] == b[j]
    {
    }
  }

  // ---------------------------------------------------------------------------------------------
  // Whole runs

  datatype Op<K, V> = Get(key: K) | GetKey(value: V) | Put(key: K, value: V)

  function Apply<K(==), V(==)>(view: Pairs<K, V>, op: Op<K, V>, capacity: int): Pairs<K, V> {
    match op
    case Get(key) => ToFront(view, Index(Keys(view), key))
    case GetKey(value) => ToFront(view, Index(Values(view), value))
    case Put(key, value) => Putting(view, key, value, capacity)
  }

  /** The key that an operation touches: the one it finds, or the one it puts. */
  function Touches<K(==), V(==)>(view: Pairs<K, V>, op: Op<K, V>): seq<K> {
    match op
    case Get(key) => if key in Keys(view) then [key] else []
    case GetKey(value) => var i := Index(Values(view), value); if i < |view| then [view[i].0] else []
    case Put(key, _) => [key]
  }

  function Run<K(==), V(==)>(ops: seq<Op<K, V>>, capacity: int): Pairs<K, V> {
    if ops == [] then [] else Apply(Run(ops[..|ops| - 1], capacity), ops[|ops| - 1], capacity)
  }

  function Touched<K(==), V(==)>(ops: seq<Op<K, V>>, capacity: int): seq<K> {
    if ops == [] then []
    else
      var before := ops[..|ops| - 1];
      Touched(before, capacity) + Touches(Run(before, capacity), ops[|ops| - 1])
  }

  predicate AllFair<K(==), V(==)>(ops: seq<Op<K, V>>, capacity: int) {
    ops == [] ||
    var before, op := ops[..|ops| - 1], ops[|ops| - 1];
    AllFair(before, capacity) && (op.Put? ==> Fair(Run(before, capacity), op.key, op.value))
  }

  function Without<T(==)>(s: seq<T>, x: T): seq<T> {
    var i := Index(s, x);
    if i < |s| then s[..i] + s[i + 1..] else s
  }

  /** The distinct keys of a sequence of touches, the last one first. */
  function Recent<K(==)>(touches: seq<K>): seq<K> {
    if touches == [] then []
    else
      var last := touches[|touches| - 1];
      [last] + Without(Recent(touches[..|touches| - 1]), last)
  }

  function First<T>(s: seq<T>, n: int): seq<T> {
    if n < 0 then [] else if n < |s| then s[..n] else s
  }

  /** Moving a key to the front and cutting off can be done in either order. */
  lemma CutAfterTouch<K(!new)>(r: seq<K>, n: int, key: K)
    requires NoTwice(r)
    ensures var s := First(r, n);
            First([key] + Without(r, key), n) == if key in s then [key] + Without(s, key) else First([key] + s, n)
    ensures NoTwice([key] + Without(r, key))
  {
    hide NoTwice, Without, First;
    TouchDistinct(r, key);
    if key in First(r, n) {
      CutFound(r, n, key);
    } else {
      CutNew(r, n, key);
    }
  }

  lemma TouchDistinct<K(!new)>(r: seq<K>, key: K)
    requires NoTwice(r)
    ensures NoTwice([key] + Without(r, key))
  {
    hide Index;
    assert key !in Without(r, key);
  }

  lemma CutFound<K(!new)>(r: seq<K>, n: int, key: K)
    requires NoTwice(r) && key in First(r, n)
    ensures First([key] + Without(r, key), n) == [key] + Without(First(r, n), key)
  {
    hide Index;
    var s := First(r, n);
    var i := Index(s, key);
    assert s[i] == r[i];
    assert Index(r, key) == i;
    if n < |r| {
      assert s[..i] == r[..i] && s[i + 1..] == r[i + 1..n];
      CutJoin(key, r, i, n);
    }
  }

  lemma CutJoin<K>(key: K, r: seq<K>, i: nat, n: nat)
    requires i < n < |r|
    ensures ([key] + (r[..i] + r[i + 1..]))[..n] == [key] + (r[..i] + r[i + 1..n])
  {
  }

  lemma CutNew<K(!new)>(r: seq<K>, n: int, key: K)
    requires key !in First(r, n)
    ensures First([key] + Without(r, key), n) == First([key] + First(r, n), n)
  {
    hide Index;
    var i := Index(r, key);
    if i < |r| && n > 0 {
      assert forall j :: 0 <= j < |First(r, n)| ==> First(r, n)[j] != key;
      assert i >= n;
      assert Without(r, key)[..n - 1] == r[..n - 1];
    }
  }

  lemma {:induction false} RecentDistinct<K(!new)>(touches: seq<K>)
    ensures NoTwice(Recent(touches))
  {
    if touches != [] {
      RecentDistinct(touches[..|touches| - 1]);
      CutAfterTouch(Recent(touches[..|touches| - 1]), 0, touches[|touches| - 1]);
    }
  }

  lemma KeysToFront<K(!new), V>(view: Pairs<K, V>, i: nat)
    requires i < |view| && NoTwice(Keys(view))
    ensures Keys(ToFront(view, i)) == [view[i].0] + Without(Keys(view), view[i].0)
    ensures Values(ToFront(view, i)) == ToFront(Values(view), i)
  {
    var j := Index(Keys(view), view[i].0);
    assert Keys(view)[i] == view[i].0 && j == i;
  }

  lemma FrontDistinct<V(!new)>(s: seq<V>, i: nat)
    requires NoTwice(s)
    ensures NoTwice(ToFront(s, i))
  {
  }

  /** What one operation does to the keys. */
  lemma KeysAfter<K(!new), V(!new)>(view: Pairs<K, V>, op: Op<K, V>, capacity: int)
    requires NoTwice(Keys(view)) && NoTwice(Values(view)) && |view| <= (if capacity < 0 then 0 else capacity)
    requires op.Put? ==> Fair(view, op.key, op.value)
    ensures var t, after := Touches(view, op), Apply(view, op, capacity);
            && NoTwice(Values(after))
            && Keys(after) == if t == [] then Keys(view)
                              else if t[0] in Keys(view) then [t[0]] + Without(Keys(view), t[0])
                              else First([t[0]] + Keys(view), capacity)
  {
    match op
    case Get(key) => {
      var i := Index(Keys(view), key);
      if i < |view| {
        KeysToFront(view, i);
        FrontDistinct(Values(view), i);
      }
    }
    case GetKey(value) => {
      var i := Index(Values(view), value);
      if i < |view| {
        KeysToFront(view, i);
        FrontDistinct(Values(view), i);
        assert Keys(view)[i] == view[i].0;
      }
    }
    case Put(key, value) => {
      var i := Index(Keys(view), key);
      if i < |view| {
        SamePair(view, key, value);
        KeysToFront(view, i);
        FrontDistinct(Values(view), i);
      } else {
        assert key !in Keys(view);
        NewPair(view, key, value, capacity);
      }
    }
  }

  lemma SamePair<K(!new), V(!new)>(view: Pairs<K, V>, key: K, value: V)
    requires NoTwice(Keys(view)) && Fair(view, key, value) && key in Keys(view)
    ensures var i := Index(Keys(view), key); view[i := (key, value)] == view
  {
    var j :| 0 <= j < |view| && view[j] == (key, value);
    assert Keys(view)[j] == key;
  }

  lemma PairHasKey<K(!new), V(!new)>(view: Pairs<K, V>, key: K, value: V)
    ensures (key, value) in view ==> key in Keys(view)
  {
    forall j | 0 <= j < |view| && view[j] == (key, value)
      ensures key in Keys(view)
    {
      assert Keys(view)[j] == key;
    }
  }

  lemma NewPair<K(!new), V(!new)>(view: Pairs<K, V>, key: K, value: V, capacity: int)
    requires NoTwice(Values(view)) && key !in Keys(view) && Fair(view, key, value)
    requires |view| <= (if capacity < 0 then 0 else capacity)
    ensures var after := Putting(view, key, value, capacity);
            && NoTwice(Values(after)) && Keys(after) == First([key] + Keys(view), capacity)
  {
    hide Index;
    PairHasKey(view, key, value);
    var longer, after := [(key, value)] + view, Putting(view, key, value, capacity);
    assert Values(longer) == [value] + Values(view) && Keys(longer) == [key] + Keys(view);
    assert after == longer[..|after|];
    FrontPart(longer, |after|);
    PartDistinct([value] + Values(view), |after|);
  }

  lemma FrontPart<K, V>(view: Pairs<K, V>, n: nat)
    requires n <= |view|
    ensures Keys(view[..n]) == Keys(view)[..n] && Values(view[..n]) == Values(view)[..n]
  {
  }

  lemma PartDistinct<T(!new)>(s: seq<T>, n: nat)
    requires n <= |s| && NoTwice(s)
    ensures NoTwice(s[..n])
  {
  }

  /**
   * Over any fair run the live keys are the `capacity` most recently touched distinct keys, in order of recency, and
   * keys and values stay paired off.
   */
  lemma {:induction false} LiveAreRecent<K(!new), V(!new)>(ops: seq<Op<K, V>>, capacity: int)
    requires AllFair(ops, capacity)
    ensures Keys(Run(ops, capacity)) == First(Recent(Touched(ops, capacity)), capacity)
    ensures NoTwice(Keys(Run(ops, capacity))) && NoTwice(Values(Run(ops, capacity)))
    decreases |ops|
  {
    hide Apply, Touches, NoTwice, Without;
    RecentDistinct(Touched(ops, capacity));
    FirstDistinct(Recent(Touched(ops, capacity)), capacity);
    if ops == [] {
      NothingTwice<K>();
      NothingTwice<V>();
    } else {
      var before, op := ops[..|ops| - 1], ops[|ops| - 1];
      LiveAreRecent(before, capacity);
      var view, ts := Run(before, capacity), Touched(before, capacity);
      RecentDistinct(ts);
      KeysAfter(view, op, capacity);
      var t := Touches(view, op);
      OneTouch(view, op);
      if t == [] {
        assert Touched(ops, capacity) == ts;
      } else {
        assert Touched(ops, capacity)[..|ts|] == ts && Touched(ops, capacity)[|ts|] == t[0];
        CutAfterTouch(Recent(ts), capacity, t[0]);
      }
    }
  }

  lemma OneTouch<K, V>(view: Pairs<K, V>, op: Op<K, V>)
    ensures |Touches(view, op)| <= 1
  {
  }

  lemma NothingTwice<T(!new)>()
    ensures NoTwice<T>([])
  {
  }

  lemma FirstDistinct<T(!new)>(s: seq<T>, n: int)
    requires NoTwice(s)
    ensures NoTwice(First(s, n))
  {
  }

  /** A cache in use: over a fair run both its indexes stay inverse and it stands for the run. */
  method Perform<K(==,!new), V(==,!new)>(ops: seq<Op<K, V>>, capacity: int) returns (l: Lru<K, V>)
    requires AllFair(ops, capacity)
    ensures l.Valid() && l.Consistent() && l.View() == Run(ops, capacity)
    ensures Keys(l.View()) == First(Recent(Touched(ops, capacity)), capacity)
  {
    hide Recent, Touched, First, Putting, ToFront, PairsOf, ByValue, ByKey, Fair, Keys, Values;
    l := new Lru(capacity);
    var n := 0;
    assert ops[..0] == [];
    assert ops[..|ops|] == ops;
    while n < |ops|
      invariant 0 <= n <= |ops| && fresh(l) && (forall e :: e in l.list ==> fresh(e)) && l.capacity == capacity
      invariant l.Valid() && l.Consistent() && l.View() == Run(ops[..n], capacity)
    {
      FairSoFar(ops, capacity, n + 1);
      assert ops[..n + 1][..n] == ops[..n];
      forall i | 0 <= i < |l.list|
        ensures fresh(l.list[i])
      {
        var e := l.list[i];
        assert e in l.list;
      }
      match ops[n] {
        case Get(key) => var _ := l.Get(key);
        case GetKey(value) => var _ := l.GetKeyFromValue(value);
        case Put(key, value) => l.Put(key, value);
      }
      n := n + 1;
    }
    LiveAreRecent(ops, capacity);
  }

  lemma {:induction false} FairSoFar<K(!new), V(!new)>(ops: seq<Op<K, V>>, capacity: int, n: nat)
    requires AllFair(ops, capacity) && n <= |ops|
    ensures AllFair(ops[..n], capacity)
    decreases |ops|
  {
    if n == |ops| {
      assert ops[..n] == ops;
    } else {
      FairSoFar(ops[..|ops| - 1], capacity, n);
      assert ops[..|ops| - 1][..n] == ops[..n];
    }
  }
}

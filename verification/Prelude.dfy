/** Vocabulary shared by every module of the model. */
module Prelude {

  /** JMAP identifiers are strings (jmap.ID). */
  type ID = string

  datatype Option<+T> = None | Some(value: T)

  /** Go's (value, error) pairs; the error carries the message the code returns. */
  datatype Result<+T> = Ok(value: T) | Err(error: string)

  /** One entry of a `destroy` list with the verdict of the hook. */
  datatype DestroyItem = DestroyItem(id: ID, accepted: bool)

  /** The ids that a `destroy` list names, in order. */
  function DestroyIds(destroy: seq<DestroyItem>): seq<ID> {
    seq(|destroy|, i requires 0 <= i < |destroy| => destroy[i].id)
  }

  lemma DestroyIdsAt(destroy: seq<DestroyItem>)
    ensures |DestroyIds(destroy)| == |destroy| && DestroyIds(destroy)[..|destroy|] == DestroyIds(destroy)
    ensures forall i :: 0 <= i < |destroy| ==> DestroyIds(destroy)[i] == destroy[i].id
    ensures forall i :: 0 <= i < |destroy| ==>
              DestroyIds(destroy)[..i + 1] == DestroyIds(destroy)[..i] + [destroy[i].id]
  {
  }

  const CANNOT_CALCULATE := "cannotCalculateChanges"

  predicate NoDup<T(==)>(s: seq<T>) {
    forall i, j :: 0 <= i < j < |s| ==> s[i] != s[j]
  }

  function Elems<T>(s: seq<T>): set<T> {
    set x | x in s
  }

  /** `order` is one way in which Go may iterate over a map with key set `keys`. */
  predicate IsOrder<T(==)>(order: seq<T>, keys: set<T>) {
    NoDup(order) && Elems(order) == keys
  }

  lemma ElemsSnoc<T>(s: seq<T>, x: T)
    ensures Elems(s + [x]) == Elems(s) + {x}
  {
  }

  lemma {:induction false} NoDupCount<T>(s: seq<T>)
    requires NoDup(s)
    ensures |Elems(s)| == |s|
  {
    if s == [] {
    } else {
      var init, x := s[..|s| - 1], s[|s| - 1];
      assert s == init + [x];
      ElemsSnoc(init, x);
      NoDupCount(init);
      assert x !in Elems(init);
    }
  }

  lemma AtMostOne<T>(s: set<T>)
    ensures |s| == 0 <==> forall x :: x !in s
    ensures |s| <= 1 ==> forall x, y :: x in s && y in s ==> x == y
  {
    if c :| c in s {
      assert s == {c} + (s - {c});
      if |s| == 1 {
        assert |s - {c}| == 0;
      }
    }
  }

  /** Meeting one more id, among those of `live` or not. */
  lemma OneMore<T>(live: set<T>, done: set<T>, x: T)
    ensures live * (done + {x}) == if x in live then live * done + {x} else live * done
    ensures |live * (done + {x})| == |live * done| + if x in live && x !in done then 1 else 0
  {
    if x in live {
      assert live * (done + {x}) == live * done + {x};
      if x in done {
        assert live * done + {x} == live * done;
      }
    } else {
      assert live * (done + {x}) == live * done;
    }
  }

  lemma OrderNone<T>()
    ensures IsOrder<T>([], {})
  {
  }

  lemma OrderSnoc<T>(order: seq<T>, keys: set<T>, x: T)
    requires IsOrder(order, keys) && x !in keys
    ensures IsOrder(order + [x], keys + {x})
  {
    ElemsSnoc(order, x);
    assert forall i :: 0 <= i < |order| ==> order[i] in Elems(order);
  }

  lemma OrderSize<T>(order: seq<T>, keys: set<T>)
    requires IsOrder(order, keys)
    ensures |order| == |keys| && NoDup(order) && Elems(order) == keys
  {
    NoDupCount(order);
  }

  lemma SomeMember<T>(s: set<T>) returns (x: T)
    requires s != {}
    ensures x in s
  {
    x :| x in s;
  }

  /** The part of a map that a loop has met grows by the key it meets next. */
  lemma MetOne<K, V>(m: map<K, V>, rest: set<K>, k: K)
    requires k in rest && k in m
    ensures m - (rest - {k}) == (m - rest)[k := m[k]]
  {
  }

  lemma DropTwice<K, V>(m: map<K, V>, a: set<K>, b: set<K>)
    ensures (m - a) - b == m - (a + b)
  {
  }
}

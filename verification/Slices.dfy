/** Go slices: an array with a length, and the index over a slice that later entries overwrite. */
module Slices {
  import opened Prelude

  /** The last position of `k`, or -1. */
  function LastAt<T(==)>(keys: seq<T>, k: T): int {
    if keys == [] then -1
    else if keys[|keys| - 1] == k then |keys| - 1
    else LastAt(keys[..|keys| - 1], k)
  }

  lemma {:induction false} LastAtIs<T>(keys: seq<T>, k: T)
    ensures -1 <= LastAt(keys, k) < |keys|
    ensures LastAt(keys, k) >= 0 ==> keys[LastAt(keys, k)] == k
    ensures forall i :: LastAt(keys, k) < i < |keys| ==> keys[i] != k
  {
    if keys == [] {
    } else {
      LastAtIs(keys[..|keys| - 1], k);
    }
  }

  lemma LastAtSnoc<T>(keys: seq<T>, x: T, k: T)
    ensures LastAt(keys + [x], k) == if x == k then |keys| else LastAt(keys, k)
  {
    assert (keys + [x])[..|keys|] == keys;
  }

  // ---------- what a filtering loop leaves ----------

  /** `ks` are the positions of `yes` in `all`, in order, and `out` has what stands there. */
  ghost predicate Selection<T>(out: seq<T>, all: seq<T>, yes: set<int>, ks: seq<int>) {
    && |ks| == |out|
    && (forall j :: 0 <= j < |ks| ==> 0 <= ks[j] < |all| && ks[j] in yes && out[j] == all[ks[j]])
    && Rising(ks)
    && (forall i :: 0 <= i < |all| && i in yes ==> i in ks)
  }

  predicate Rising(ks: seq<int>) {
    forall i, j :: 0 <= i < j < |ks| ==> ks[i] < ks[j]
  }

  /** `out` is `all` without the elements that stand outside `yes`. */
  ghost predicate Selects<T>(out: seq<T>, all: seq<T>, yes: set<int>) {
    exists ks :: Selection(out, all, yes, ks)
  }

  lemma SelectsNone<T>(yes: set<int>)
    ensures Selects<T>([], [], yes)
  {
    assert Selection<T>([], [], yes, []);
  }

  lemma SelectsTake<T>(out: seq<T>, all: seq<T>, yes: set<int>, x: T)
    requires Selects(out, all, yes) && |all| in yes
    ensures Selects(out + [x], all + [x], yes)
  {
    hide Selection;
    var ks :| Selection(out, all, yes, ks);
    SelectionTake(out, all, yes, x, ks);
  }

  lemma SelectionTake<T>(out: seq<T>, all: seq<T>, yes: set<int>, x: T, ks: seq<int>)
    requires Selection(out, all, yes, ks) && |all| in yes
    ensures Selection(out + [x], all + [x], yes, ks + [|all|])
  {
    var ks' := ks + [|all|];
    assert Rising(ks');
    forall i | 0 <= i < |all + [x]| && i in yes
      ensures i in ks'
    {
      if i == |all| {
        assert ks'[|ks|] == i;
      } else {
        assert i in ks;
      }
    }
    assert forall j :: 0 <= j < |ks'| ==> (out + [x])[j] == (all + [x])[ks'[j]];
  }

  lemma SelectsSkip<T>(out: seq<T>, all: seq<T>, yes: set<int>, x: T)
    requires Selects(out, all, yes) && |all| !in yes
    ensures Selects(out, all + [x], yes)
  {
    hide Rising;
    var ks :| Selection(out, all, yes, ks);
    assert Selection(out, all + [x], yes, ks);
  }

  /** Positions beyond the end do not matter. */
  lemma SelectsSame<T>(out: seq<T>, all: seq<T>, yes: set<int>, other: set<int>)
    requires Selects(out, all, yes) && forall i :: 0 <= i < |all| ==> (i in yes <==> i in other)
    ensures Selects(out, all, other)
  {
    hide Rising;
    var ks :| Selection(out, all, yes, ks);
    assert Selection(out, all, other, ks);
  }

  lemma SelectsMembers<T>(out: seq<T>, all: seq<T>, yes: set<int>)
    requires Selects(out, all, yes)
    ensures forall x :: x in out ==> exists i :: 0 <= i < |all| && i in yes && all[i] == x
    ensures forall i :: 0 <= i < |all| && i in yes ==> all[i] in out
  {
    hide Rising;
    var ks :| Selection(out, all, yes, ks);
    forall j | 0 <= j < |out|
      ensures exists i :: 0 <= i < |all| && i in yes && all[i] == out[j]
    {
      assert all[ks[j]] == out[j];
    }
    forall i | 0 <= i < |all| && i in yes
      ensures all[i] in out
    {
      var j :| 0 <= j < |ks| && ks[j] == i;
      assert out[j] == all[i];
    }
  }

  lemma SelectsElems<T>(out: seq<T>, all: seq<T>, yes: set<int>)
    requires Selects(out, all, yes)
    ensures Elems(out) == set i | 0 <= i < |all| && i in yes :: all[i]
  {
    hide Selects;
    SelectsMembers(out, all, yes);
  }

  /** `append`: in place while there is room, else into a new array of some larger capacity. */
  method Append<T>(buf: array<T>, len: nat, x: T, growth: nat) returns (out: array<T>)
    requires len <= buf.Length
    modifies buf
    ensures len < out.Length && out[..len + 1] == old(buf[..len]) + [x]
    ensures if len < buf.Length then out == buf else fresh(out) && buf[..] == old(buf[..])
  {
    if len < buf.Length {
      out := buf;
    } else {
      out := new T[len + 1 + growth](_ => x);
      for i := 0 to len
        invariant out[..i] == buf[..i] && buf[..] == old(buf[..])
      {
        out[i] := buf[i];
      }
    }
    out[len] := x;
  }
}

/** Bytes, and facts about concatenations that several components share. */
module Bytes {
  type byte = x: int | 0 <= x < 256

  datatype Option<T> = None | Some(value: T)

  /** The concatenation of `parts`, first part first. */
  function Flatten<T>(parts: seq<seq<T>>): seq<T> {
    if parts == [] then [] else parts[0] + Flatten(parts[1..])
  }

  lemma FlattenNone<T>()
    ensures Flatten<T>([]) == []
  {
  }

  lemma FlattenFrom<T>(parts: seq<seq<T>>, k: nat)
    requires k < |parts|
    ensures Flatten(parts[k..]) == parts[k] + Flatten(parts[k + 1..])
  {
    assert parts[k..][1..] == parts[k + 1..];
  }

  lemma {:induction false} FlattenConcat<T>(a: seq<seq<T>>, b: seq<seq<T>>)
    ensures Flatten(a + b) == Flatten(a) + Flatten(b)
  {
    if a == [] {
      assert a + b == b;
    } else {
      assert (a + b)[1..] == a[1..] + b;
      FlattenConcat(a[1..], b);
    }
  }

  lemma FlattenOne<T>(p: seq<T>)
    ensures Flatten([p]) == p
  {
    assert Flatten([p][1..]) == [];
  }

  lemma FlattenPush<T>(a: seq<seq<T>>, p: seq<T>)
    ensures Flatten(a + [p]) == Flatten(a) + p
  {
    FlattenConcat(a, [p]);
    FlattenOne(p);
  }

  /** Parts of one size: the concatenation is as long as their number times that size. */
  lemma {:induction false} FlattenUniform<T>(parts: seq<seq<T>>, size: nat)
    requires forall i :: 0 <= i < |parts| ==> |parts[i]| == size
    ensures |Flatten(parts)| == |parts| * size
  {
    if parts != [] {
      FlattenUniform(parts[1..], size);
      assert |parts| * size == size + (|parts| - 1) * size;
    }
  }
}

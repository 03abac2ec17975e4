/** Shared vocabulary: optional values, results, and concatenation / multiset
    union of a sequence of sequences (the output of a set of workers). */
module Common {

  datatype Option<+T> = None | Some(value: T)

  datatype Result<+T, +E> = Ok(value: T) | Err(error: E)

  /** All the parts, concatenated in order. */
  function Flatten<T>(parts: seq<seq<T>>): seq<T>
  {
    if |parts| == 0 then [] else parts[0] + Flatten(parts[1..])
  }

  lemma {:induction false} FlattenAppend<T>(a: seq<seq<T>>, b: seq<seq<T>>)
    ensures Flatten(a + b) == Flatten(a) + Flatten(b)
  {
    if |a| == 0 {
      assert a + b == b;
    } else {
      assert (a + b)[1..] == a[1..] + b;
      FlattenAppend(a[1..], b);
    }
  }

  /** Dropping the last part removes exactly that part from the end. */
  lemma FlattenSnoc<T>(parts: seq<seq<T>>)
    requires |parts| > 0
    ensures Flatten(parts) == Flatten(parts[..|parts| - 1]) + parts[|parts| - 1]
  {
    var m := |parts| - 1;
    assert parts == parts[..m] + [parts[m]];
    FlattenAppend(parts[..m], [parts[m]]);
    assert Flatten([parts[m]]) == parts[m] + Flatten([parts[m]][1..]);
  }

  /** Total length of all parts. */
  function TotalSize<T>(parts: seq<seq<T>>): nat
  {
    if |parts| == 0 then 0 else |parts[0]| + TotalSize(parts[1..])
  }

  lemma {:induction false} FlattenSize<T>(parts: seq<seq<T>>)
    ensures |Flatten(parts)| == TotalSize(parts)
  {
    if |parts| > 0 {
      FlattenSize(parts[1..]);
    }
  }

  /** Parts of the same lengths have the same total size. */
  lemma {:induction false} TotalSizeOfLengths<T, U>(a: seq<seq<T>>, b: seq<seq<U>>)
    requires |a| == |b|
    requires forall i :: 0 <= i < |a| ==> |a[i]| == |b[i]|
    ensures TotalSize(a) == TotalSize(b)
  {
    if |a| > 0 {
      TotalSizeOfLengths(a[1..], b[1..]);
    }
  }

  /** The multiset union of the parts: what a set of concurrent workers emit
      altogether, once the interleaving of their outputs is forgotten. */
  function Union<T>(parts: seq<seq<T>>): multiset<T>
  {
    if |parts| == 0 then multiset{} else multiset(parts[0]) + Union(parts[1..])
  }

  lemma {:induction false} UnionIsFlatten<T>(parts: seq<seq<T>>)
    ensures Union(parts) == multiset(Flatten(parts))
  {
    if |parts| > 0 {
      UnionIsFlatten(parts[1..]);
    }
  }

  lemma {:induction false} UnionAppend<T>(a: seq<seq<T>>, b: seq<seq<T>>)
    ensures Union(a + b) == Union(a) + Union(b)
  {
    if |a| == 0 {
      assert a + b == b;
    } else {
      assert (a + b)[1..] == a[1..] + b;
      UnionAppend(a[1..], b);
    }
  }

  function Reverse<T>(s: seq<T>): (r: seq<T>)
    ensures |r| == |s|
    ensures forall j :: 0 <= j < |s| ==> r[j] == s[|s| - 1 - j]
  {
    if |s| == 0 then [] else Reverse(s[1..]) + [s[0]]
  }

  /** The order in which the workers are listed does not change their union. */
  lemma {:induction false} UnionReverse<T>(parts: seq<seq<T>>)
    ensures Union(Reverse(parts)) == Union(parts)
  {
    if |parts| > 0 {
      UnionReverse(parts[1..]);
      UnionAppend(Reverse(parts[1..]), [parts[0]]);
      assert Union([parts[0]]) == multiset(parts[0]) + Union([parts[0]][1..]);
    }
  }

  /** Appending items to one worker's output adds exactly those items to the union. */
  lemma {:induction false} UnionExtendOne<T>(parts: seq<seq<T>>, j: nat, extra: seq<T>)
    requires j < |parts|
    ensures Union(parts[j := parts[j] + extra]) == Union(parts) + multiset(extra)
  {
    var p := parts[j := parts[j] + extra];
    if j == 0 {
      assert p[1..] == parts[1..];
    } else {
      assert p[1..] == parts[1..][j - 1 := parts[j] + extra];
      UnionExtendOne(parts[1..], j - 1, extra);
    }
  }
}

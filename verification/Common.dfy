/** Small vocabulary shared by the models: optional values and fallible results. */
module Common {

  datatype Option<+T> = None | Some(value: T)

  datatype Result<+T, +E> = Ok(value: T) | Err(error: E)

  function Min(a: int, b: int): int {
    if a <= b then a else b
  }

  function Max(a: int, b: int): int {
    if a >= b then a else b
  }

  /** The first n elements, or all of them when there are fewer (SQL LIMIT, Vec::truncate). */
  function Take<T>(s: seq<T>, n: nat): seq<T> {
    if n < |s| then s[..n] else s
  }

  lemma Regroup<T>(a: seq<T>, b: seq<T>, c: seq<T>)
    ensures (a + b) + c == a + (b + c)
  {
  }

  function Flatten<T>(parts: seq<seq<T>>): seq<T> {
    if parts == [] then [] else parts[0] + Flatten(parts[1..])
  }

  lemma {:induction false} FlattenAppend<T>(parts: seq<seq<T>>, last: seq<T>)
    ensures Flatten(parts + [last]) == Flatten(parts) + last
  {
    if parts == [] {
      assert parts + [last] == [last];
    } else {
      assert (parts + [last])[1..] == parts[1..] + [last];
      FlattenAppend(parts[1..], last);
    }
  }

  lemma {:induction false} SubsetSize<T>(a: set<T>, b: set<T>)
    requires a <= b
    ensures |a| <= |b|
    ensures |a| == |b| ==> a == b
  {
    if a == {} {
      assert |b| == 0 ==> b == {};
    } else {
      var x :| x in a;
      SubsetSize(a - {x}, b - {x});
      if |a| == |b| {
        assert a == (a - {x}) + {x} && b == (b - {x}) + {x};
      }
    }
  }

  // ----- substrings

  predicate OccursAt(hay: string, pat: string, k: nat) {
    k + |pat| <= |hay| && hay[k..k + |pat|] == pat
  }

  predicate Contains(hay: string, pat: string) {
    exists k :: 0 <= k <= |hay| && OccursAt(hay, pat, k)
  }

  /** The first occurrence at or after from. */
  function NextMatch(hay: string, pat: string, from: nat): (r: Option<nat>)
    requires from <= |hay|
    ensures r.Some? ==> from <= r.value <= |hay|
    decreases |hay| - from
  {
    if OccursAt(hay, pat, from) then Some(from)
    else if from == |hay| then None
    else NextMatch(hay, pat, from + 1)
  }

  lemma {:induction false} NextMatchMeaning(hay: string, pat: string, from: nat)
    requires from <= |hay|
    ensures var r := NextMatch(hay, pat, from);
      && (r.Some? ==> OccursAt(hay, pat, r.value) && forall k :: from <= k < r.value ==> !OccursAt(hay, pat, k))
      && (r.None? ==> forall k :: from <= k <= |hay| ==> !OccursAt(hay, pat, k))
    decreases |hay| - from
  {
    if !OccursAt(hay, pat, from) && from < |hay| {
      NextMatchMeaning(hay, pat, from + 1);
    }
  }
}

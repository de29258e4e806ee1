/** Mapped lists, lists of lists, and the sizes of sets. */
module Sequences {

  function Map<A, B>(f: A -> B, s: seq<A>): (r: seq<B>)
    ensures |r| == |s| && forall i :: 0 <= i < |r| ==> r[i] == f(s[i])
  {
    seq(|s|, i requires 0 <= i < |s| => f(s[i]))
  }

  function Concatenate<T>(parts: seq<seq<T>>): seq<T> {
    if parts == [] then [] else parts[0] + Concatenate(parts[1..])
  }

  lemma {:induction false} ConcatenateSplits<T>(parts: seq<seq<T>>, i: nat)
    requires i <= |parts|
    ensures Concatenate(parts) == Concatenate(parts[..i]) + Concatenate(parts[i..])
  {
    if i > 0 {
      ConcatenateSplits(parts[1..], i - 1);
      assert parts[..i][1..] == parts[1..][..i - 1] && parts[1..][i - 1..] == parts[i..];
    }
  }

  lemma ConcatenateOneMore<T>(parts: seq<seq<T>>, i: nat)
    requires i < |parts|
    ensures Concatenate(parts[..i + 1]) == Concatenate(parts[..i]) + parts[i]
    ensures |Concatenate(parts[..i + 1])| <= |Concatenate(parts)|
  {
    ConcatenateSplits(parts, i + 1);
    ConcatenateSplits(parts[..i + 1], i);
    assert parts[..i + 1][..i] == parts[..i] && parts[..i + 1][i..] == [parts[i]];
    assert Concatenate([parts[i]]) == parts[i] + Concatenate([]);
  }

  lemma EmptyConcatenation<T>()
    ensures Concatenate<T>([]) == []
  {
  }

  lemma {:induction false} SubsetIsSmaller<T>(a: set<T>, b: set<T>)
    requires a <= b
    ensures |a| <= |b|
  {
    if a != {} {
      var x :| x in a;
      SubsetIsSmaller(a - {x}, b - {x});
    }
  }
}

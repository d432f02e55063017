/** The bucket array shared by both engines: a sequence of FIFO queues
    indexed by tentative distance. Only the primitive operations live here;
    the two engines differ in when they use them. */
module BucketQueue {

  /** Both engines index the bucket array with a computed distance and do not
      check it first; an index past the end raises there and ends the run. */
  datatype Error = BucketIndexOutOfRange(index: nat)

  datatype Result<T> = Ok(value: T) | Err(error: Error)

  /** Total number of entries over all buckets. */
  function Entries<T>(b: seq<seq<T>>): nat
    decreases |b|
  {
    if |b| == 0 then 0 else Entries(b[..|b| - 1]) + |b[|b| - 1]|
  }

  lemma {:induction false} EntriesUpdate<T>(b: seq<seq<T>>, i: nat, s: seq<T>)
    requires i < |b|
    ensures Entries(b[i := s]) + |b[i]| == Entries(b) + |s|
    decreases |b|
  {
    var last := |b| - 1;
    if i == last {
      assert b[i := s][..last] == b[..last];
    } else {
      EntriesUpdate(b[..last], i, s);
      assert b[i := s][..last] == b[..last][i := s];
    }
  }

  /** Position of the first occurrence of `x` in `s`. */
  function FirstIndex<T(==)>(s: seq<T>, x: T): (k: nat)
    requires x in s
    ensures k < |s| && s[k] == x && x !in s[..k]
    decreases |s|
  {
    if s[0] == x then 0
    else
      assert s == [s[0]] + s[1..];
      var k := FirstIndex(s[1..], x);
      assert s[..k + 1] == [s[0]] + s[1..][..k];
      k + 1
  }

  /** `s` with its first occurrence of `x` taken out (Python's
      `list.remove`), or `s` itself when `x` does not occur. */
  function RemoveFirst<T(==)>(s: seq<T>, x: T): (r: seq<T>)
    ensures x !in s ==> r == s
    ensures x in s ==> exists k :: 0 <= k < |s| && s[k] == x && x !in s[..k] && r == s[..k] + s[k + 1..]
    ensures multiset(r) == multiset(s) - multiset{x}
    ensures forall y :: y in r ==> y in s
  {
    if x in s then
      var k := FirstIndex(s, x);
      assert s == s[..k] + [x] + s[k + 1..];
      s[..k] + s[k + 1..]
    else
      assert multiset(s)[x] == 0;
      s
  }
}

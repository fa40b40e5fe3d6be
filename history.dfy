/** The list of past results (`addToPastResults`): newest first, at most
    twenty entries, the oldest dropped when the list is full. */
module History {

  const Capacity: nat := 20

  /** The list after `newResult` is added to `past`. */
  function Pushed<T>(past: seq<T>, newResult: T): (next: seq<T>)
    ensures |past| <= Capacity ==> |next| <= Capacity
    ensures |next| == if |past| >= Capacity then |past| else |past| + 1
    ensures next[0] == newResult
    ensures forall i :: 1 <= i < |next| ==> next[i] == past[i - 1]
  {
    if |past| >= Capacity then [newResult] + past[..|past| - 1] else [newResult] + past
  }

  /** `addToPastResults`: copy the list, pop the last entry when the list is
      full, then unshift the new result. */
  method AddToPastResults<T>(pastResults: seq<T>, newResult: T) returns (newArray: seq<T>)
    ensures newArray == Pushed(pastResults, newResult)
  {
    newArray := pastResults;
    if |pastResults| >= Capacity {
      newArray := newArray[..|newArray| - 1];
    }
    newArray := [newResult] + newArray;
  }

  /** The first n entries of s, or all of s when it is shorter. */
  function Take<T>(s: seq<T>, n: nat): (r: seq<T>)
    ensures |r| == if |s| < n then |s| else n
    ensures forall i :: 0 <= i < |r| ==> r[i] == s[i]
  {
    if |s| <= n then s else s[..n]
  }

  function Reverse<T>(s: seq<T>): (r: seq<T>)
    ensures |r| == |s|
    ensures forall i :: 0 <= i < |s| ==> r[i] == s[|s| - 1 - i]
  {
    if s == [] then [] else Reverse(s[1..]) + [s[0]]
  }

  /** The list after each of `results` is added in turn. */
  function PushAll<T>(past: seq<T>, results: seq<T>): seq<T>
    decreases |results|
  {
    if results == [] then past else PushAll(Pushed(past, results[0]), results[1..])
  }

  lemma TakeTake<T>(x: seq<T>, y: seq<T>, n: nat)
    ensures Take(x + Take(y, n), n) == Take(x + y, n)
  {
    var l := Take(x + Take(y, n), n);
    var r := Take(x + y, n);
    assert |l| == |r|;
    forall i | 0 <= i < |l| ensures l[i] == r[i] {
      if i >= |x| {
        assert (x + Take(y, n))[i] == Take(y, n)[i - |x|];
      }
    }
  }

  /** Within capacity, pushing is keeping the first twenty of the result in front. */
  lemma PushedIsTake<T>(past: seq<T>, r: T)
    requires |past| <= Capacity
    ensures Pushed(past, r) == Take([r] + past, Capacity)
  {
  }

  lemma ReverseFront<T>(results: seq<T>, past: seq<T>)
    requires results != []
    ensures Reverse(results[1..]) + ([results[0]] + past) == Reverse(results) + past
  {
    assert Reverse(results) == Reverse(results[1..]) + [results[0]];
    AppendAssoc(Reverse(results[1..]), [results[0]], past);
  }

  /** Concatenation of sequences is associative. */
  lemma AppendAssoc<T>(a: seq<T>, b: seq<T>, c: seq<T>)
    ensures a + (b + c) == (a + b) + c
  {
  }

  /** A list within capacity, after a run of results is added: the newest
      twenty of all results seen, newest first. */
  lemma {:induction false} PushAllKeepsNewest<T>(past: seq<T>, results: seq<T>)
    requires |past| <= Capacity
    ensures PushAll(past, results) == Take(Reverse(results) + past, Capacity)
    decreases |results|
  {
    if results == [] {
      assert Reverse(results) + past == past;
    } else {
      var r := results[0];
      var rest := results[1..];
      calc {
        PushAll(past, results);
        PushAll(Pushed(past, r), rest);
        { PushAllKeepsNewest(Pushed(past, r), rest); }
        Take(Reverse(rest) + Pushed(past, r), Capacity);
        { PushedIsTake(past, r); }
        Take(Reverse(rest) + Take([r] + past, Capacity), Capacity);
        { TakeTake(Reverse(rest), [r] + past, Capacity); }
        Take(Reverse(rest) + ([r] + past), Capacity);
        { ReverseFront(results, past); }
        Take(Reverse(results) + past, Capacity);
      }
    }
  }
}

/** The membership helpers of utils/utils.go and the event-slice reversal the
    polling loop relies on. */
module Utils {

  /** Linear search: true exactly when some element of `slice` equals `val`.
      Generic so that it also stands for `ContainsStackStatus` and
      `ContainsResourceStatus`, which search the stack and resource status
      families in the same way. */
  function ContainsStatus<T(==)>(slice: seq<T>, val: T): (found: bool)
    ensures found <==> exists i :: 0 <= i < |slice| && slice[i] == val
    ensures |slice| == 0 ==> !found
  {
    if |slice| == 0 then false
    else slice[0] == val || ContainsStatus(slice[1..], val)
  }

  /** Searching a concatenation is searching either part. */
  lemma {:induction false} ContainsConcat<T>(a: seq<T>, b: seq<T>, val: T)
    ensures ContainsStatus(a + b, val) == (ContainsStatus(a, val) || ContainsStatus(b, val))
    decreases |a|
  {
    if |a| == 0 {
      assert a + b == b;
    } else {
      assert (a + b)[1..] == a[1..] + b;
      ContainsConcat(a[1..], b, val);
    }
  }

  /** Sequence reversal, standing for `utils.ReverseEvents`: element `i` of the
      result is element `|s| - 1 - i` of the input. */
  function Reverse<T>(s: seq<T>): (r: seq<T>)
    ensures |r| == |s|
    ensures forall i :: 0 <= i < |s| ==> r[i] == s[|s| - 1 - i]
  {
    if |s| == 0 then [] else Reverse(s[1..]) + [s[0]]
  }

  /** Reversing twice gives the input back. */
  lemma ReverseInvolution<T>(s: seq<T>)
    ensures Reverse(Reverse(s)) == s
  {
  }
}

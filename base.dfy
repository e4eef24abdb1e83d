/** Values shared by the corpus pipeline: the Python exceptions its stages can
    raise on bad input, and the result types that carry them. */
module Base {

  /** An exception raised by the pipeline. Python aborts the whole stage when
      one is raised, so a stage either returns its full output or one fault. */
  datatype Fault =
    | IndexError(lineNumber: nat)  // a line with fewer pieces than field names; lineNumber, its 0-based position, is added by the model (Python's IndexError carries none)
    | KeyError(key: string)        // a dictionary lookup of an absent key
    | ZeroDivisionError            // the retained-fraction diagnostic of trim on an empty vocabulary

  datatype Result<T> = Ok(value: T) | Err(fault: Fault)

  datatype Option<T> = None | Some(value: T)

  /** k copies of x. */
  function Repeat<T>(x: T, k: nat): (r: seq<T>)
    ensures |r| == k && forall i :: 0 <= i < k ==> r[i] == x
  {
    seq(k, _ => x)
  }

  /** k copies of x hold x k times and nothing else. */
  lemma {:induction false} MultisetRepeat<T>(x: T, k: nat)
    ensures multiset(Repeat(x, k))[x] == k
    ensures forall y :: y != x ==> multiset(Repeat(x, k))[y] == 0
  {
    if k > 0 {
      MultisetRepeat(x, k - 1);
      assert Repeat(x, k) == Repeat(x, k - 1) + [x];
    }
  }

  /** The lists one after the other. */
  function Flatten<T>(xss: seq<seq<T>>): seq<T>
    decreases |xss|
  {
    if xss == [] then [] else var n := |xss| - 1; Flatten(xss[..n]) + xss[n]
  }

  lemma {:induction false} FlattenAppend<T>(xss: seq<seq<T>>, yss: seq<seq<T>>)
    ensures Flatten(xss + yss) == Flatten(xss) + Flatten(yss)
    decreases |yss|
  {
    if yss == [] {
      assert xss + yss == xss;
    } else {
      var n := |yss| - 1;
      FlattenAppend(xss, yss[..n]);
      assert (xss + yss)[..|xss| + n] == xss + yss[..n];
    }
  }

  /** An element of the flattened list lies in one of the lists. */
  lemma {:induction false} FlattenMembers<T>(xss: seq<seq<T>>, x: T)
    ensures x in Flatten(xss) <==> exists k :: 0 <= k < |xss| && x in xss[k]
    decreases |xss|
  {
    if xss != [] {
      var n := |xss| - 1;
      FlattenMembers(xss[..n], x);
      assert forall k :: 0 <= k < n ==> xss[..n][k] == xss[k];
    }
  }

  /** k copies of one list flatten to k times its length. */
  lemma {:induction false} FlattenRepeatLength<T>(xs: seq<T>, k: nat)
    ensures |Flatten(Repeat(xs, k))| == k * |xs|
    decreases k
  {
    if k > 0 {
      assert Repeat(xs, k)[..k - 1] == Repeat(xs, k - 1);
      FlattenRepeatLength(xs, k - 1);
      MultiplyStep(k, |xs|);
    }
  }

  lemma MultiplyStep(k: nat, m: nat)
    requires k > 0
    ensures (k - 1) * m + m == k * m
  {
  }
}

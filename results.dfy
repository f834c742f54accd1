/** Failure values for the front end: every Python exception the modelled
    code can raise on bad input becomes an `Err` carrying one of these. */
module Results {

  datatype Error =
    | MissingId                 // `nid, line = line.split(' ', 1)` finds no space
    | BadId                     // `int(nid)` raises ValueError
    | BadFieldCount             // a question line does not split into three tab-separated fields
    | BadSupportingId           // `int(...)` on a supporting-fact id raises ValueError
    | SupportingIdOutOfRange    // `story[i - 1]` raises IndexError
    | EmptyReduce               // `reduce` over an empty list of sentences
    | MixedConcat               // `x + y` between a token list and the placeholder string
    | EmptyMax                  // `max()` of an empty sequence
    | UnknownWord(word: string) // `word_idx[w]` raises KeyError
    | AnswerIndexOutOfRange     // `y[word_idx[answer]]` is outside the zero vector

  datatype Result<+T> = Ok(value: T) | Err(error: Error)

  datatype Option<+T> = None | Some(value: T)

  /** `f` applied to every element, stopping at the first failure. */
  function Collect<A, B>(xs: seq<A>, f: A -> Result<B>): Result<seq<B>> {
    if xs == [] then Ok([])
    else match Collect(xs[..|xs| - 1], f)
      case Err(e) => Err(e)
      case Ok(ys) =>
        match f(xs[|xs| - 1])
        case Err(e) => Err(e)
        case Ok(y) => Ok(ys + [y])
  }

  lemma {:induction false} CollectOk<A, B>(xs: seq<A>, f: A -> Result<B>)
    ensures Collect(xs, f).Ok? <==> forall k :: 0 <= k < |xs| ==> f(xs[k]).Ok?
  {
    if xs != [] {
      var init := xs[..|xs| - 1];
      CollectOk(init, f);
      assert forall k :: 0 <= k < |init| ==> init[k] == xs[k];
    }
  }

  lemma {:induction false} CollectValues<A, B>(xs: seq<A>, f: A -> Result<B>)
    requires Collect(xs, f).Ok?
    ensures |Collect(xs, f).value| == |xs|
    ensures forall k :: 0 <= k < |xs| ==> f(xs[k]).Ok? && Collect(xs, f).value[k] == f(xs[k]).value
  {
    if xs != [] {
      var init := xs[..|xs| - 1];
      assert Collect(init, f).Ok?;
      CollectValues(init, f);
      assert forall k :: 0 <= k < |init| ==> init[k] == xs[k];
    }
  }
}

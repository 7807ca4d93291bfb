/** What a call of an iterator's `next` can do, and what a sequence of calls yields. */
module Items {

  /**
   * One call of `next`: it returns None (`Done`), Some(Ok(x)) or
   * Some(Err(())), or it panics.
   */
  datatype Pull<+T> = Done | Ok(value: T) | Err | Panic

  /** The calls that end a `for` loop over the iterator: None, or a panic. */
  predicate Ends<T>(p: Pull<T>) {
    p.Done? || p.Panic?
  }

  /** The values of the Some(Ok(_)) results, in order. */
  function Oks<T>(items: seq<Pull<T>>): (vs: seq<T>)
    ensures |vs| <= |items|
  {
    if items == [] then []
    else (if items[0].Ok? then [items[0].value] else []) + Oks(items[1..])
  }

  /** `Oks` of a sequence with one more result in front. */
  lemma OksCons<T>(p: Pull<T>, items: seq<Pull<T>>)
    ensures Oks([p] + items) == (if p.Ok? then [p.value] else []) + Oks(items)
  {
    assert ([p] + items)[1..] == items;
  }

  /** The number of Some(Err(())) results. */
  function Errs<T>(items: seq<Pull<T>>): (k: nat)
    ensures k <= |items|
  {
    if items == [] then 0 else (if items[0].Err? then 1 else 0) + Errs(items[1..])
  }

  /** `Errs` of a sequence with one more result in front. */
  lemma ErrsCons<T>(p: Pull<T>, items: seq<Pull<T>>)
    ensures Errs([p] + items) == (if p.Err? then 1 else 0) + Errs(items)
  {
    assert ([p] + items)[1..] == items;
  }
}

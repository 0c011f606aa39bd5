/** What a search reports back in place of the page's result text. */
module Results {
  import opened Graph

  datatype Option<T> = None | Some(value: T)

  /**
   * `Invalid` is the early return for an unknown start or goal; `Found`
   * carries the path from start to goal, the accumulated cost (uniform-cost
   * search only) and the number of steps; `NotFound` carries the steps.
   */
  datatype SearchResult =
    | Invalid
    | Found(path: seq<Node>, cost: Option<int>, steps: nat)
    | NotFound(steps: nat)
}

/**
 * The numbered context blocks both search edge functions hand to the answer
 * model: the k-th search result (from 0) is introduced by "[k+1] ".
 */
module Citations {

  import opened Text
  import Wrappers

  /** The citation mark for number `n`. */
  function Cite(n: nat): string {
    "[" + NatToString(n) + "] "
  }

  /**
   * `results.map((r, idx) => `[${idx + 1}] ...`)`: each item rendered by `body`
   * and introduced by its citation mark, in result order.
   */
  function Blocks<T>(items: seq<T>, body: T -> string): (r: seq<string>)
    ensures |r| == |items|
  {
    seq(|items|, k requires 0 <= k < |items| => Cite(k + 1) + body(items[k]))
  }

  /**
   * Block k opens with a bracket, then a number that reads back as k + 1, so the
   * citations run 1, 2, ... in result order; item k's body follows the mark unchanged.
   */
  lemma BlockReadsBack<T>(items: seq<T>, body: T -> string, k: nat)
    requires k < |items|
    ensures Blocks(items, body)[k] == Cite(k + 1) + body(items[k])
    ensures |Blocks(items, body)[k]| > 0 && Blocks(items, body)[k][0] == '['
    ensures ParseIntPrefix(Blocks(items, body)[k][1..]) == Wrappers.Some(k + 1)
    ensures Blocks(items, body)[k][|Cite(k + 1)|..] == body(items[k])
  {
    var b := Blocks(items, body)[k];
    assert b[1..] == NatToString(k + 1) + ("] " + body(items[k]));
    ParseNatToString(k + 1, "] " + body(items[k]));
  }
}

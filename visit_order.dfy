/**
 * The visited-question order of Controllers/QuestionController.cs: ids are
 * appended once when a question is shown and popped on backward navigation.
 */
module VisitOrder {

  /** No id occurs twice. */
  predicate NoDuplicates(order: seq<int>) {
    forall i, j | 0 <= i < j < |order| :: order[i] != order[j]
  }

  /** `if (!order.Contains(id)) order.Add(id);` */
  function AppendOnce(order: seq<int>, id: int): (r: seq<int>)
    ensures |r| == |order| + 1 <==> id !in order
    ensures id in order ==> r == order
    ensures |r| <= |order| + 1 && r[..|order|] == order
    ensures id in r && r[|r| - 1] == (if id in order then order[|order| - 1] else id)
  {
    if id in order then order else order + [id]
  }

  /** `order.RemoveAt(order.Count - 1)` */
  function DropLast(order: seq<int>): (r: seq<int>)
    requires order != []
    ensures |r| == |order| - 1
    ensures r + [order[|order| - 1]] == order
  {
    order[..|order| - 1]
  }

  /** Appending once keeps an order free of duplicates. */
  lemma AppendOnceKeepsNoDuplicates(order: seq<int>, id: int)
    requires NoDuplicates(order)
    ensures NoDuplicates(AppendOnce(order, id))
  {
  }

  /** Dropping the last id keeps an order free of duplicates. */
  lemma DropLastKeepsNoDuplicates(order: seq<int>)
    requires order != [] && NoDuplicates(order)
    ensures NoDuplicates(DropLast(order))
  {
  }

  /** Popping after an append of a new id restores the order as it was. */
  lemma DropLastUndoesAppendOnce(order: seq<int>, id: int)
    requires id !in order
    ensures DropLast(AppendOnce(order, id)) == order
  {
  }
}

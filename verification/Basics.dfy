/** Small functions that several kernels share. */
module Basics {
  import opened Rounding

  function Min(a: nat, b: nat): nat { if a <= b then a else b }

  function Pow2(k: nat): nat { if k == 0 then 1 else 2 * Pow2(k - 1) }

  /** Id of the bin a swap visits next. */
  function Next(id: int, swapForY: bool): int { if swapForY then id - 1 else id + 1 }

  /** Index of the first record with the given id. */
  function FindBy<T>(records: seq<T>, idOf: T -> int, id: int): Option<nat> {
    if records == [] then None
    else if idOf(records[0]) == id then Some(0)
    else match FindBy(records[1..], idOf, id) case None => None case Some(k) => Some(k + 1)
  }

  lemma {:induction false} FindByFirst<T>(records: seq<T>, idOf: T -> int, id: int)
    ensures match FindBy(records, idOf, id)
            case None => forall j :: 0 <= j < |records| ==> idOf(records[j]) != id
            case Some(k) => k < |records| && idOf(records[k]) == id && forall j :: 0 <= j < k ==> idOf(records[j]) != id
  {
    if records == [] {
    } else if idOf(records[0]) != id {
      FindByFirst(records[1..], idOf, id);
    }
  }

  /** Only the ids matter. */
  lemma {:induction false} FindBySame<T>(a: seq<T>, b: seq<T>, idOf: T -> int, id: int)
    requires |a| == |b| && forall k :: 0 <= k < |a| ==> idOf(a[k]) == idOf(b[k])
    ensures FindBy(a, idOf, id) == FindBy(b, idOf, id)
  {
    if a == [] {
    } else {
      FindBySame(a[1..], b[1..], idOf, id);
    }
  }
}

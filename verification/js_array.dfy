/** A JavaScript array as a sequence of slots: `None` is a hole (`undefined`),
    writing past the end grows the array, and `join('')` renders holes as
    the empty string. */
module JsArray {
  import opened Wrappers

  type Slots = seq<Option<string>>

  /** `new Array(n)`: `n` holes. */
  function NewArray(n: nat): (a: Slots)
    ensures |a| == n
    ensures forall i :: 0 <= i < n ==> a[i] == None
  {
    seq(n, _ => None)
  }

  /** `a[k] = v`: overwrites slot `k`, or grows the array to `k + 1` slots,
      leaving holes between the old end and `k`. */
  function Store(a: Slots, k: nat, v: string): (r: Slots)
    ensures |r| == if k < |a| then |a| else k + 1
    ensures r[k] == Some(v)
    ensures forall j :: 0 <= j < |a| && j != k ==> r[j] == a[j]
    ensures forall j :: |a| <= j < k ==> r[j] == None
  {
    if k < |a| then a[k := Some(v)] else a + NewArray(k - |a|) + [Some(v)]
  }

  function Render(slot: Option<string>): (r: string) {
    match slot
    case None => ""
    case Some(v) => v
  }

  /** `a.join('')`. */
  function Join(a: Slots): (r: string) {
    if |a| == 0 then "" else Render(a[0]) + Join(a[1..])
  }

  /** Joining splits over concatenation of arrays. */
  lemma {:induction false} JoinAppend(a: Slots, b: Slots)
    ensures Join(a + b) == Join(a) + Join(b)
    decreases |a|
  {
    if |a| == 0 {
      assert a + b == b;
    } else {
      assert (a + b)[1..] == a[1..] + b;
      JoinAppend(a[1..], b);
    }
  }
}

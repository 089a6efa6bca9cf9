/** Shared value types. */
module Common {
  datatype Option<+T> = None | Some(value: T)

  datatype Result<+T, +E> = Ok(value: T) | Err(error: E)

  const TWO_POW_64: nat := 0x1_0000_0000_0000_0000
  const TWO_POW_160: nat := 0x1_0000000000000000_0000000000000000_00000000
  const TWO_POW_256: nat := 0x1_0000000000000000_0000000000000000_0000000000000000_0000000000000000

  type Byte = x: int | 0 <= x < 256

  type Address = a: nat | a < TWO_POW_160

  function Power2(e: nat): (p: nat)
    ensures p > 0
  {
    if e == 0 then 1 else 2 * Power2(e - 1)
  }

  /** Some element of a set. */
  ghost function Pick<T>(s: set<T>): (x: T)
    requires s != {}
    ensures x in s
  {
    var x :| x in s; x
  }

  /** The numbers 1 to k. */
  ghost function UpTo(k: nat): (s: set<int>)
    ensures forall i :: i in s <==> 1 <= i <= k
  {
    if k == 0 then {} else UpTo(k - 1) + {k}
  }

  lemma {:induction false} UpToSize(k: nat)
    ensures |UpTo(k)| == k
  {
    if k > 0 {
      UpToSize(k - 1);
      var s := UpTo(k - 1);
      assert k !in s;
      assert |s + {k}| == |s| + 1;
    }
  }
}

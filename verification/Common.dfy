/** Small types shared by the component models. */
module Common {
  datatype Option<+T> = None | Some(value: T)

  /** A C string: the bytes before the terminating NUL, each held as a `char` below 256. */
  type CString = s: string | forall i :: 0 <= i < |s| ==> 0 < s[i] as int < 256

  /** The byte a C pointer reads at offset `i`, with the terminator after the last one. */
  function At(s: string, i: nat): char {
    if i < |s| then s[i] else '\0'
  }

  /** A list without the first occurrence of `e`: the walk that moves a link past its node. */
  function WithoutFirst(list: seq<nat>, e: nat): (r: seq<nat>) {
    if list == [] then [] else if list[0] == e then list[1..] else [list[0]] + WithoutFirst(list[1..], e)
  }

  lemma {:induction false} WithoutFirstAt(list: seq<nat>, k: nat)
    requires k < |list| && list[k] !in list[..k]
    ensures WithoutFirst(list, list[k]) == list[..k] + list[k + 1..]
  {
    if k > 0 {
      assert list[1..][..k - 1] == list[..k][1..];
      WithoutFirstAt(list[1..], k - 1);
      assert list[0] == list[..k][0];
    }
  }
}

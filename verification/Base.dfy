/** Result codes of `include/utils/hdf_base.h`, and a few operations on sequences that several modules share. */
module Base {

  const HDF_SUCCESS := 0
  const HDF_FAILURE := -1
  const HDF_ERR_INVALID_PARAM := -3
  const HDF_ERR_INVALID_OBJECT := -4
  const HDF_ERR_MALLOC_FAIL := -6
  const HDF_DEV_ERR_NO_MEMORY := -201
  const HDF_DEV_ERR_NO_DEVICE := -202
  const HDF_DEV_ERR_NODATA := -207

  const SERVICE_POLICY_NONE := 0
  const SERVICE_POLICY_PRIVATE := 4

  datatype Option<+T> = None | Some(value: T)

  ghost predicate Distinct<X>(s: seq<X>) {
    forall i, j :: 0 <= i < j < |s| ==> s[i] != s[j]
  }

  /** `s` without what stands at position `k`. */
  function Without<X>(s: seq<X>, k: nat): (t: seq<X>)
    requires k < |s|
  {
    s[..k] + s[k + 1..]
  }

  lemma WithoutAt<X>(s: seq<X>, k: nat)
    requires k < |s|
    ensures |Without(s, k)| == |s| - 1
    ensures forall i {:trigger Without(s, k)[i]} :: 0 <= i < |s| - 1 ==>
      Without(s, k)[i] == if i < k then s[i] else s[i + 1]
  {
  }

  function Reverse<X>(s: seq<X>): (t: seq<X>)
    ensures |t| == |s| && forall i {:trigger t[i]} :: 0 <= i < |t| ==> t[i] == s[|s| - 1 - i]
  {
    if s == [] then [] else Reverse(s[1..]) + [s[0]]
  }

  lemma {:induction false} ReverseConcat<X>(s: seq<X>, t: seq<X>)
    ensures Reverse(s + t) == Reverse(t) + Reverse(s)
  {
    if s == [] {
      assert s + t == t;
    } else {
      ReverseConcat(s[1..], t);
      assert (s + t)[1..] == s[1..] + t;
    }
  }
}

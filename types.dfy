/** Values shared by the interior-model readers: optional values, results,
    one row of a radial profile and the column views of a list of rows. */
module Types {

  datatype Option<T> = None | Some(value: T)

  datatype Result<T, E> = Ok(value: T) | Err(error: E)

  /** One row of a layered radial profile: the radius of the bottom of the
      shell and the density assigned to the shell. */
  datatype Shell = Shell(r: real, rho: real)

  /** The radius column of a list of rows. */
  function Radii(rows: seq<Shell>): (rs: seq<real>)
    ensures |rs| == |rows|
    ensures forall k :: 0 <= k < |rows| ==> rs[k] == rows[k].r
  {
    seq(|rows|, k requires 0 <= k < |rows| => rows[k].r)
  }

  /** The density column of a list of rows. */
  function Densities(rows: seq<Shell>): (ds: seq<real>)
    ensures |ds| == |rows|
    ensures forall k :: 0 <= k < |rows| ==> ds[k] == rows[k].rho
  {
    seq(|rows|, k requires 0 <= k < |rows| => rows[k].rho)
  }

  function Abs(x: real): real {
    if x < 0.0 then -x else x
  }

  ghost predicate StrictlyIncreasing(s: seq<real>) {
    forall i, j :: 0 <= i < j < |s| ==> s[i] < s[j]
  }

  ghost predicate Nondecreasing(s: seq<real>) {
    forall i, j :: 0 <= i < j < |s| ==> s[i] <= s[j]
  }

  /** Python's subscript on a non-empty array: a negative index counts from
      the end, so `a[-1]` is the last element. */
  function PyIndex(s: seq<real>, k: int): (x: real)
    requires -|s| <= k < |s|
    ensures k >= 0 ==> x == s[k]
    ensures k < 0 ==> x == s[|s| + k]
  {
    if k < 0 then s[|s| + k] else s[k]
  }
}

/**
 * The placeholder node processor (backend/helper_functions/processFunction.js):
 * every numeric value met while iterating `data_in` overwrites `sum` with
 * twice that value, and the result holds `sum` under the single key "sum".
 */
module ProcessFunction {
  import opened OrderedMap
  import opened RunRecords

  /** The last numeric value of `d` in iteration order, if any. */
  function LastNumber(d: seq<(string, Value)>): (r: Option<int>)
    ensures r.None? <==> forall i :: 0 <= i < |d| ==> !d[i].1.Num?
    ensures r.Some? ==> exists i :: 0 <= i < |d| && d[i].1 == Num(r.value) &&
                          forall j :: i < j < |d| ==> !d[j].1.Num?
  {
    if d == [] then None
    else if d[|d| - 1].1.Num? then Some(d[|d| - 1].1.n)
    else LastNumber(d[..|d| - 1])
  }

  /** The value the loop leaves in `sum`. */
  function Sum(d: seq<(string, Value)>): int {
    match LastNumber(d)
    case None => 0
    case Some(n) => 2 * n
  }

  /** processFunction(data_in): a fresh map whose only entry is "sum". */
  method Process(dataIn: DataMap) returns (dataOut: DataMap)
    ensures Keys(dataOut) == ["sum"]
    ensures dataOut == [("sum", Num(Sum(dataIn)))]
  {
    var sum := 0;
    var i := 0;
    while i < |dataIn|
      invariant 0 <= i <= |dataIn|
      invariant sum == Sum(dataIn[..i])
    {
      assert dataIn[..i + 1][..i] == dataIn[..i];
      var value := dataIn[i].1;
      if value.Num? {
        sum := 2 * value.n;
      }
      i := i + 1;
    }
    assert dataIn[..i] == dataIn;
    dataOut := [];
    dataOut := Set(dataOut, "sum", Num(sum));
  }

  /** A numeric value strictly after every other numeric value decides the sum; earlier ones are overwritten, not added. */
  lemma {:induction false} LastNumericWins(d: seq<(string, Value)>, i: nat)
    requires i < |d| && d[i].1.Num?
    requires forall j :: i < j < |d| ==> !d[j].1.Num?
    ensures Sum(d) == 2 * d[i].1.n
  {
    if i < |d| - 1 {
      LastNumericWins(d[..|d| - 1], i);
    }
  }

  /** Without any numeric value the sum is 0. */
  lemma NoNumberSumsToZero(d: seq<(string, Value)>)
    requires forall i :: 0 <= i < |d| ==> !d[i].1.Num?
    ensures Sum(d) == 0
  {
  }

  /** Only the values, and only in their order, matter: keys play no part. */
  lemma {:induction false} KeysDoNotMatter(a: seq<(string, Value)>, b: seq<(string, Value)>)
    requires |a| == |b|
    requires forall i :: 0 <= i < |a| ==> a[i].1 == b[i].1
    ensures Sum(a) == Sum(b)
  {
    if a != [] {
      KeysDoNotMatter(a[..|a| - 1], b[..|b| - 1]);
    }
  }

  /** Non-numeric entries play no part: dropping them leaves the sum unchanged. */
  lemma {:induction false} NonNumericDoNotMatter(d: seq<(string, Value)>, k: nat)
    requires k < |d| && !d[k].1.Num?
    ensures Sum(d[..k] + d[k + 1..]) == Sum(d)
  {
    var e := d[..k] + d[k + 1..];
    if k < |d| - 1 {
      assert e[..|e| - 1] == d[..|d| - 1][..k] + d[..|d| - 1][k + 1..];
      assert e[|e| - 1] == d[|d| - 1];
      NonNumericDoNotMatter(d[..|d| - 1], k);
    } else {
      assert e == d[..|d| - 1];
    }
  }
}

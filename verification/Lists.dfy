/** Lists without repetition. */
module Lists {
  ghost predicate Distinct<T>(s: seq<T>) {
    forall i, j | 0 <= i < j < |s| :: s[i] != s[j]
  }

  lemma DistinctCons<T>(x: T, rest: seq<T>)
    ensures Distinct([x] + rest) <==> x !in rest && Distinct(rest)
  {
    var s := [x] + rest;
    if Distinct(s) {
      assert forall i | 0 <= i < |rest| :: rest[i] == s[i + 1] && s[i + 1] != s[0];
    } else {
      var i, j :| 0 <= i < j < |s| && s[i] == s[j];
      if i == 0 {
        assert rest[j - 1] == x;
      } else {
        assert rest[i - 1] == rest[j - 1];
      }
    }
  }
}

/** The least element of a finite set of numbers. */
module Minimum {

  method Smallest(s: set<nat>) returns (n: nat)
    requires s != {}
    ensures n in s && forall k | k in s :: n <= k
  {
    n :| n in s;
    var todo := s - {n};
    while todo != {}
      invariant todo <= s && n in s && forall k | k in s && k !in todo :: n <= k
      decreases |todo|
    {
      var k :| k in todo;
      if k < n {
        n := k;
      }
      todo := todo - {k};
    }
  }
}

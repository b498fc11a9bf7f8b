/**
 * Memory as every structure here sees it: addresses, of which there is always
 * an unused one.  An allocation may still fail.
 */
module Memory {

  datatype Option<+T> = None | Some(value: T)

  type Addr = nat

  lemma FreshAddr(s: set<Addr>)
    ensures exists a: Addr :: a !in s
  {
    var m := Above(s);
  }

  lemma {:induction false} Above(s: set<Addr>) returns (m: nat)
    ensures forall a :: a in s ==> a < m
    ensures m !in s
  {
    if s == {} {
      m := 0;
    } else {
      var x :| x in s;
      var k := Above(s - {x});
      m := if k > x then k else x + 1;
      assert forall a :: a in s ==> a == x || a in s - {x};
    }
  }
}

/** Lists as sequences, where only membership and order matter. */
module Lists {
  ghost predicate NoDup<T>(s: seq<T>) { forall i, j | 0 <= i < j < |s| :: s[i] != s[j] }

  /** list_remove of an element that occurs at most once; nothing when it does not occur. */
  function Remove(s: seq<nat>, x: nat): (r: seq<nat>)
    ensures NoDup(s) ==> NoDup(r) && forall y :: y in r <==> y in s && y != x
    ensures x !in s ==> r == s
  {
    if s == [] then []
    else if s[0] == x then s[1..]
    else
      var t := Remove(s[1..], x);
      assert NoDup(s) ==> s[0] !in s[1..];
      [s[0]] + t
  }

  /** The others stay in order. */
  lemma {:induction false} RemoveCuts(s: seq<nat>, x: nat) returns (k: nat)
    requires x in s
    ensures k < |s| && s[k] == x && Remove(s, x) == s[..k] + s[k + 1..]
  {
    if s[0] == x {
      k := 0;
    } else {
      k := RemoveCuts(s[1..], x);
      assert Remove(s, x) == [s[0]] + (s[1..][..k] + s[1..][k + 1..]) == s[..k + 1] + s[k + 2..];
      k := k + 1;
    }
  }
}

/** The doubly linked lists of the driver, as sequences of node names. */
module Lists {

  predicate NoRepeats(s: seq<nat>) {
    forall i, j :: 0 <= i < j < |s| ==> s[i] != s[j]
  }

  /** RemoveEntryList. */
  function Remove(s: seq<nat>, x: nat): seq<nat> {
    if s == [] then []
    else if s[0] == x then s[1..]
    else [s[0]] + Remove(s[1..], x)
  }

  lemma {:induction false} RemoveIsSet(s: seq<nat>, x: nat)
    requires NoRepeats(s)
    ensures NoRepeats(Remove(s, x)) && forall y :: y in Remove(s, x) <==> y in s && y != x
  {
    if s != [] {
      assert s == [s[0]] + s[1..];
      if s[0] != x {
        RemoveIsSet(s[1..], x);
        assert forall j :: 0 <= j < |Remove(s[1..], x)| ==> Remove(s[1..], x)[j] in s[1..];
      }
    }
  }

  lemma {:induction false} RemoveShrinks(s: seq<nat>, x: nat)
    requires x in s
    ensures |Remove(s, x)| == |s| - 1
  {
    assert s == [s[0]] + s[1..];
    if s[0] != x {
      RemoveShrinks(s[1..], x);
    }
  }

  /** The first `x` goes, and the others keep their order. */
  lemma {:induction false} RemovedAt(s: seq<nat>, x: nat) returns (i: nat)
    requires x in s
    ensures i < |s| && s[i] == x && x !in s[..i] && Remove(s, x) == s[..i] + s[i + 1..]
  {
    assert s == [s[0]] + s[1..];
    i := 0;
    if s[0] != x {
      i := RemovedAt(s[1..], x);
      i := i + 1;
      assert s[..i] == [s[0]] + s[1..][..i - 1] && s[i + 1..] == s[1..][i..];
    }
  }
}

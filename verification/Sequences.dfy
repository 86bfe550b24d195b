// Sequences as lists without repetitions, and the option type.

module Sequences {

  datatype Option<+T> = None | Some(value: T)

  ghost function Elements<T>(s: seq<T>): set<T>
  {
    set x | x in s
  }

  ghost predicate NoRepeats<T>(s: seq<T>)
  {
    forall i, j :: 0 <= i < j < |s| ==> s[i] != s[j]
  }

  lemma OnlyElement<T>(s: seq<T>, x: T)
    requires NoRepeats(s) && Elements(s) == {x}
    ensures s == [x]
  {
    assert |s| > 1 ==> s[0] != s[1];
    assert forall i :: 0 <= i < |s| ==> s[i] in Elements(s);
    assert x in Elements(s);
  }

  lemma NoRepeatsJoin<T>(s: seq<T>, t: seq<T>)
    requires NoRepeats(s) && NoRepeats(t) && Elements(s) !! Elements(t)
    ensures NoRepeats(s + t) && Elements(s + t) == Elements(s) + Elements(t)
  {
    forall i, j | 0 <= i < j < |s + t| ensures (s + t)[i] != (s + t)[j] {
      if i < |s| && |s| <= j { assert s[i] in Elements(s) && t[j - |s|] in Elements(t); }
    }
  }

  lemma JoinAssociates<T>(a: seq<T>, b: seq<T>, c: seq<T>)
    ensures (a + b) + c == a + (b + c)
  {
  }

  lemma NoRepeatsTail<T>(s: seq<T>)
    requires NoRepeats(s) && s != []
    ensures NoRepeats(s[1..]) && Elements(s[1..]) == Elements(s) - {s[0]}
  {
  }

  lemma NoRepeatsPush<T>(s: seq<T>, x: T)
    requires NoRepeats(s) && x !in s
    ensures NoRepeats([x] + s) && Elements([x] + s) == Elements(s) + {x}
  {
  }

  lemma {:induction false} SizeOfElements<T>(s: seq<T>)
    requires NoRepeats(s)
    ensures |Elements(s)| == |s|
  {
    if s != [] {
      NoRepeatsTail(s);
      SizeOfElements(s[1..]);
    } else {
      assert Elements(s) == {};
    }
  }
}

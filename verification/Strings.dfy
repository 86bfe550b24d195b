// Keys are strings. This module has the string operations the radix tree calls
// (substr), the order std::map keeps its labels in, and that order's laws.

module Strings {
  import opened Sequences

  /** `std::string::substr(begin, num)`: `begin` past the end throws, so it is a precondition;
      a count that runs past the end is clipped, and a negative `int` count becomes a huge
      `size_t`, which is clipped the same way. */
  function Substr(s: string, begin: int, num: int): (r: string)
    requires 0 <= begin <= |s|
    ensures r <= s[begin..]
    ensures |r| == if 0 <= num < |s| - begin then num else |s| - begin
  {
    if 0 <= num < |s| - begin then s[begin..begin + num] else s[begin..]
  }

  /** Length of the longest common prefix. */
  function Lcp(a: string, b: string): (i: nat)
    ensures i <= |a| && i <= |b| && a[..i] == b[..i]
    ensures i == |a| || i == |b| || a[i] != b[i]
  {
    if a == "" || b == "" || a[0] != b[0] then 0 else
      var i := Lcp(a[1..], b[1..]);
      assert a[..i + 1] == [a[0]] + a[1..][..i];
      assert b[..i + 1] == [b[0]] + b[1..][..i];
      i + 1
  }

  /** `std::string::operator<`, the order of `std::map<std::string, ...>`. */
  predicate Less(a: string, b: string)
  {
    var i := Lcp(a, b);
    i < |b| && (i == |a| || a[i] < b[i])
  }

  /** The two defining properties fix `Lcp`. */
  lemma LcpUnique(a: string, b: string, i: nat)
    requires i <= |a| && i <= |b| && a[..i] == b[..i]
    requires i == |a| || i == |b| || a[i] != b[i]
    ensures Lcp(a, b) == i
  {
  }

  lemma LcpPrefix(a: string, b: string)
    ensures Lcp(a, b) == |a| <==> a <= b
  {
  }

  /** Leaving a prefix of `b` is leaving `b`. */
  lemma LcpLeaves(a: string, p: string, b: string)
    requires p <= b && !(p <= a)
    ensures Lcp(a, b) < |p|
  {
  }

  lemma LcpAtLeast(a: string, b: string, d: nat)
    requires d <= |a| && d <= |b| && a[..d] == b[..d]
    ensures Lcp(a, b) >= d
  {
  }

  /** Strings that agree up to `d` have the same characters and the same prefixes up to there. */
  lemma AgreeUpTo(a: string, b: string, d: nat)
    requires d <= |a| && d <= |b| && a[..d] == b[..d]
    ensures forall i :: 0 <= i < d ==> a[i] == b[i]
    ensures forall p: string :: |p| <= d ==> (p <= a <==> p <= b)
  {
  }

  /** A string comes before every string that properly extends it. */
  lemma PrefixLess(a: string, b: string)
    requires a <= b && |a| < |b|
    ensures Less(a, b)
  {
  }

  /** The first difference decides. */
  lemma DivergeLess(a: string, b: string, d: nat)
    requires d < |a| && d < |b| && a[..d] == b[..d] && a[d] < b[d]
    ensures Less(a, b)
  {
  }

  lemma LessIrreflexive(a: string)
    ensures !Less(a, a)
  {
  }

  lemma LessTotal(a: string, b: string)
    ensures Less(a, b) || Less(b, a) || a == b
  {
  }

  lemma LessTransitive(a: string, b: string, c: string)
    requires Less(a, b) && Less(b, c)
    ensures Less(a, c)
  {
  }

  lemma LessAsymmetric(a: string, b: string)
    requires Less(a, b)
    ensures !Less(b, a)
  {
  }

  ghost predicate Ascending(s: seq<string>)
  {
    forall i, j :: 0 <= i < j < |s| ==> Less(s[i], s[j])
  }

  /** A strictly ascending sequence is determined by its elements. */
  lemma {:induction false} AscendingUnique(s: seq<string>, t: seq<string>)
    requires Ascending(s) && Ascending(t) && Elements(s) == Elements(t)
    ensures s == t
  {
    assert forall x :: x in s <==> x in t by {
      forall x ensures x in s <==> x in t { assert x in Elements(s) <==> x in Elements(t); }
    }
    assert s != [] ==> s[0] in t;
    assert t != [] ==> t[0] in s;
    if s != [] && t != [] {
      var a, b := s[0], t[0];
      assert a in Elements(t) && b in Elements(s);
      if a != b {
        var i :| 0 <= i < |s| && s[i] == b;
        var j :| 0 <= j < |t| && t[j] == a;
        assert Less(a, b) && Less(b, a);
        LessAsymmetric(a, b);
      }
      forall x ensures x in Elements(s[1..]) <==> x in Elements(t[1..]) {
        TailElements(s, x);
        TailElements(t, x);
      }
      AscendingUnique(s[1..], t[1..]);
    }
  }

  lemma TailElements(s: seq<string>, x: string)
    requires s != [] && Ascending(s)
    ensures x in Elements(s[1..]) <==> x in Elements(s) && x != s[0]
  {
  }

  /** The first label of a non-empty `std::map`. */
  method First(labels: set<string>) returns (least: string)
    requires labels != {}
    ensures least in labels
    ensures forall x :: x in labels && x != least ==> Less(least, x)
  {
    least :| least in labels;
    var seen := {least};
    while seen != labels
      invariant least in seen && seen <= labels
      invariant forall x :: x in seen && x != least ==> Less(least, x)
      decreases labels - seen
    {
      assert exists y :: y in labels && y !in seen;
      var y :| y in labels && y !in seen;
      LessTotal(least, y);
      if Less(y, least) {
        forall x | x in seen && x != y ensures Less(y, x) {
          if x != least { LessTransitive(y, least, x); }
        }
        least := y;
      }
      seen := seen + {y};
    }
  }

  /** The order in which a loop from `begin()` to `end()` visits the labels of a `std::map`. */
  method InOrder(labels: set<string>) returns (s: seq<string>)
    ensures Ascending(s) && Elements(s) == labels
  {
    s := [];
    var rest := labels;
    while rest != {}
      invariant Ascending(s)
      invariant Elements(s) !! rest && Elements(s) + rest == labels
      invariant forall x, y :: x in s && y in rest ==> Less(x, y)
      decreases rest
    {
      var x := First(rest);
      forall y, z | y in s + [x] && z in rest - {x} ensures Less(y, z) {}
      assert Elements(s + [x]) == Elements(s) + {x};
      s, rest := s + [x], rest - {x};
    }
  }

  /** `find(from)` followed by `++it`: the next label of the map, or none at `end()`. */
  method Next(labels: set<string>, from: string) returns (next: Option<string>)
    requires from in labels
    ensures next.None? ==> forall x :: x in labels && x != from ==> Less(x, from)
    ensures next.Some? ==> next.value in labels && Less(from, next.value)
    ensures next.Some? ==> forall x :: x in labels && x != next.value && Less(from, x) ==> Less(next.value, x)
  {
    var later := set x | x in labels && Less(from, x);
    if later == {} {
      forall x | x in labels && x != from ensures Less(x, from) {
        assert x !in later;
        LessTotal(x, from);
      }
      return None;
    }
    var y := First(later);
    assert y in later;
    return Some(y);
  }
}

/** The order the ordered queries on a text column produce (backend/models/user.js:117,
    backend/models/exercise.js:57), taken to be code-point
    order (the C collation): strings compare character by character and a proper
    prefix sorts first. */
module Collation {

  /** `a` sorts strictly before `b`. */
  predicate Less(a: string, b: string)
    decreases |a|
  {
    if |a| == 0 then |b| > 0
    else if |b| == 0 then false
    else if a[0] != b[0] then a[0] < b[0]
    else Less(a[1..], b[1..])
  }

  lemma {:induction false} LessIrreflexive(a: string)
    ensures !Less(a, a)
    decreases |a|
  {
    if |a| > 0 {
      LessIrreflexive(a[1..]);
    }
  }

  lemma {:induction false} LessTransitive(a: string, b: string, c: string)
    requires Less(a, b) && Less(b, c)
    ensures Less(a, c)
    decreases |a|
  {
    if |a| > 0 && a[0] == b[0] && b[0] == c[0] {
      LessTransitive(a[1..], b[1..], c[1..]);
    }
  }

  lemma {:induction false} LessTotal(a: string, b: string)
    ensures a == b || Less(a, b) || Less(b, a)
    decreases |a|
  {
    if |a| > 0 && |b| > 0 && a[0] == b[0] {
      LessTotal(a[1..], b[1..]);
      if a[1..] == b[1..] {
        assert a == [a[0]] + a[1..] && b == [b[0]] + b[1..];
      }
    }
  }

  lemma LessAsymmetric(a: string, b: string)
    requires Less(a, b)
    ensures !Less(b, a)
  {
    if Less(b, a) {
      LessTransitive(a, b, a);
      LessIrreflexive(a);
    }
  }

  /** "not after" is transitive. */
  lemma NotLessTransitive(a: string, b: string, c: string)
    requires !Less(b, a) && !Less(c, b)
    ensures !Less(c, a)
  {
    LessTotal(a, b);
    if Less(c, a) {
      if Less(a, b) {
        LessTransitive(c, a, b);
      }
    }
  }

  /** Every element sorts strictly before every later one (so none repeats). */
  ghost predicate StrictlyAscending(s: seq<string>) {
    forall i, j :: 0 <= i < j < |s| ==> Less(s[i], s[j])
  }

  /** Consing a string below the head of an ascending sequence keeps it ascending. */
  lemma AscendingCons(x: string, s: seq<string>)
    requires StrictlyAscending(s)
    requires |s| == 0 || Less(x, s[0])
    requires forall y :: y in s ==> Less(x, y)
    ensures StrictlyAscending([x] + s)
  {
    var r := [x] + s;
    forall i, j | 0 <= i < j < |r|
      ensures Less(r[i], r[j])
    {
      if i == 0 {
        assert r[j] in s;
      } else {
        assert r[i] == s[i - 1] && r[j] == s[j - 1];
      }
    }
  }

  /** `x` inserted into the ascending sequence `s` unless it is already there. */
  function InsertDistinct(s: seq<string>, x: string): (r: seq<string>)
    requires StrictlyAscending(s)
    ensures StrictlyAscending(r)
    ensures forall y :: y in r <==> y in s || y == x
    decreases |s|
  {
    if |s| == 0 then [x]
    else if x == s[0] then s
    else
      LessTotal(x, s[0]);
      if Less(x, s[0]) then
        assert forall y :: y in s ==> Less(x, y) by {
          forall y | y in s ensures Less(x, y) {
            var k :| 0 <= k < |s| && s[k] == y;
            if k > 0 {
              LessTransitive(x, s[0], y);
            }
          }
        }
        AscendingCons(x, s);
        [x] + s
      else
        var t := InsertDistinct(s[1..], x);
        assert forall y :: y in t ==> Less(s[0], y) by {
          forall y | y in t ensures Less(s[0], y) {
            if y != x {
              var k :| 0 <= k < |s[1..]| && s[1..][k] == y;
              assert s[k + 1] == y;
            }
          }
        }
        AscendingCons(s[0], t);
        [s[0]] + t
  }

  /** The distinct strings of `s`, in ascending order (a distinct, ordered select). */
  function SortDistinct(s: seq<string>): (r: seq<string>)
    ensures StrictlyAscending(r)
    ensures forall y :: y in r <==> y in s
  {
    if |s| == 0 then [] else InsertDistinct(SortDistinct(s[1..]), s[0])
  }

  lemma SameElementsBothEmpty(s: seq<string>, t: seq<string>)
    requires forall y :: y in s <==> y in t
    ensures |s| == 0 <==> |t| == 0
  {
    if |s| > 0 {
      assert s[0] in t;
    }
    if |t| > 0 {
      assert t[0] in s;
    }
  }

  /** A strictly ascending sequence is determined by its elements. */
  lemma {:induction false} AscendingUnique(s: seq<string>, t: seq<string>)
    requires StrictlyAscending(s) && StrictlyAscending(t)
    requires forall y :: y in s <==> y in t
    ensures s == t
    decreases |s|
  {
    if |s| > 0 && |t| > 0 {
      // both heads are the least element of the same set
      forall y | y in s ensures y == s[0] || Less(s[0], y) {
        var k :| 0 <= k < |s| && s[k] == y;
      }
      forall y | y in t ensures y == t[0] || Less(t[0], y) {
        var k :| 0 <= k < |t| && t[k] == y;
      }
      assert s[0] in t && t[0] in s;
      if s[0] != t[0] {
        LessAsymmetric(s[0], t[0]);
        assert false;
      }
      assert s == [s[0]] + s[1..] && t == [t[0]] + t[1..];
      forall y ensures y in s[1..] <==> y in t[1..] {
        if y in s[1..] {
          var k :| 0 <= k < |s[1..]| && s[1..][k] == y;
          assert s[k + 1] == y && Less(s[0], y);
          LessIrreflexive(y);
          assert y != t[0] && y in t;
        }
        if y in t[1..] {
          var k :| 0 <= k < |t[1..]| && t[1..][k] == y;
          assert t[k + 1] == y && Less(t[0], y);
          LessIrreflexive(y);
          assert y != s[0] && y in s;
        }
      }
      AscendingUnique(s[1..], t[1..]);
    } else {
      SameElementsBothEmpty(s, t);
    }
  }
}

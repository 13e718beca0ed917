/** Symbol names in the order of `std::map<cstring, ...>`. */
module NameOrder {

  /** `strcmp(a, b) < 0`. */
  predicate Less(a: string, b: string) {
    b != "" && (a == "" || a[0] < b[0] || (a[0] == b[0] && Less(a[1..], b[1..])))
  }

  lemma {:induction false} LessIrreflexive(a: string)
    ensures !Less(a, a)
  {
    if a != "" {
      LessIrreflexive(a[1..]);
    }
  }

  lemma {:induction false} LessTotal(a: string, b: string)
    ensures a == b || Less(a, b) || Less(b, a)
    ensures !(Less(a, b) && Less(b, a))
  {
    if a != "" && b != "" {
      LessTotal(a[1..], b[1..]);
      assert a == [a[0]] + a[1..] && b == [b[0]] + b[1..];
    }
  }

  lemma {:induction false} LessTransitive(a: string, b: string, c: string)
    requires Less(a, b) && Less(b, c)
    ensures Less(a, c)
  {
    if a != "" && a[0] == b[0] && b[0] == c[0] {
      LessTransitive(a[1..], b[1..], c[1..]);
    }
  }

  ghost predicate IsLeast(names: set<string>, n: string) {
    n in names && forall m {:trigger Less(n, m)} | m in names && m != n :: Less(n, m)
  }

  lemma {:induction false} LeastExists(names: set<string>) returns (n: string)
    requires names != {}
    ensures IsLeast(names, n)
    decreases names
  {
    var x :| x in names;
    if names == {x} {
      n := x;
    } else {
      var m := LeastExists(names - {x});
      LessTotal(m, x);
      n := if Less(x, m) then x else m;
      forall k | k in names && k != n ensures Less(n, k) {
        if n == x && k != m {
          LessTransitive(x, m, k);
        }
      }
    }
  }

  lemma LeastUnique(names: set<string>, a: string, b: string)
    requires IsLeast(names, a) && IsLeast(names, b)
    ensures a == b
  {
    LessTotal(a, b);
    LessIrreflexive(a);
  }

  lemma LeastIsThere(names: set<string>)
    requires names != {}
    ensures exists n: string :: IsLeast(names, n)
  {
    var n := LeastExists(names);
  }

  /** The first name in order. */
  ghost function Least(names: set<string>): (n: string)
    requires names != {}
    ensures IsLeast(names, n)
  {
    LeastIsThere(names);
    var n :| IsLeast(names, n);
    n
  }
}

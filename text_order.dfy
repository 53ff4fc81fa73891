/**
  The order SQLite uses to compare TEXT values under its default BINARY
  collation: bytewise (here: character-wise) lexicographic order, in which a
  proper prefix sorts before every extension of it. In particular the empty
  string is below every non-empty string. Dafny's built-in `<` on sequences is
  the proper-prefix relation, so every comparison of timestamps and ids in the
  store goes through `Less`.
*/
module TextOrder {

  predicate Less(a: string, b: string)
    ensures a < b ==> Less(a, b)
    ensures Less(a, b) ==> !(b <= a)
    decreases |a|
  {
    if a == [] then b != []
    else if b == [] then false
    else if a[0] != b[0] then a[0] < b[0]
    else Less(a[1..], b[1..])
  }

  predicate LessOrEqual(a: string, b: string) {
    a == b || Less(a, b)
  }

  lemma LessIrreflexive(a: string)
    ensures !Less(a, a)
  {
  }

  lemma {:induction false} LessTransitive(a: string, b: string, c: string)
    requires Less(a, b) && Less(b, c)
    ensures Less(a, c)
    decreases |a|
  {
    if a != [] && a[0] == b[0] && b[0] == c[0] {
      LessTransitive(a[1..], b[1..], c[1..]);
    }
  }

  lemma {:induction false} LessTotal(a: string, b: string)
    ensures a == b || Less(a, b) || Less(b, a)
    decreases |a|
  {
    if a != [] && b != [] && a[0] == b[0] {
      LessTotal(a[1..], b[1..]);
      if a[1..] == b[1..] {
        assert a == [a[0]] + a[1..] && b == [b[0]] + b[1..];
      }
    }
  }

  lemma LessAsymmetric(a: string, b: string)
    requires Less(a, b)
    ensures !Less(b, a)
  {
  }

  /** `LessOrEqual` is a total order: the facts above, for two arguments. */
  lemma LessOrEqualAntisymmetric(a: string, b: string)
    requires LessOrEqual(a, b) && LessOrEqual(b, a)
    ensures a == b
  {
    if a != b {
      LessAsymmetric(a, b);
    }
  }

  lemma LessOrEqualTransitive(a: string, b: string, c: string)
    requires LessOrEqual(a, b) && LessOrEqual(b, c)
    ensures LessOrEqual(a, c)
  {
    if a != b && b != c {
      LessTransitive(a, b, c);
    }
  }

  /** `m` is the largest element of `s`, as SQL's max() aggregate picks it. */
  predicate IsMaxOf(m: string, s: set<string>) {
    m in s && forall t :: t in s ==> LessOrEqual(t, m)
  }

  lemma {:induction false} MaxExists(s: set<string>)
    requires s != {}
    ensures exists m :: IsMaxOf(m, s)
    decreases |s|
  {
    var x :| x in s;
    if s == {x} {
      assert IsMaxOf(x, s);
    } else {
      var rest := s - {x};
      MaxExists(rest);
      var m :| IsMaxOf(m, rest);
      LessTotal(m, x);
      if Less(m, x) {
        forall t | t in s
          ensures LessOrEqual(t, x)
        {
          if t != x {
            LessOrEqualTransitive(t, m, x);
          }
        }
        assert IsMaxOf(x, s);
      } else {
        assert IsMaxOf(m, s);
      }
    }
  }

  lemma MaxUnique(s: set<string>)
    ensures forall m, m' :: IsMaxOf(m, s) && IsMaxOf(m', s) ==> m == m'
  {
    forall m, m' | IsMaxOf(m, s) && IsMaxOf(m', s)
      ensures m == m'
    {
      LessOrEqualAntisymmetric(m, m');
    }
  }

  /** SQL max() over a non-empty set of TEXT values. */
  function Max(s: set<string>): (m: string)
    requires s != {}
    ensures m in s
    ensures forall t :: t in s ==> t == m || Less(t, m)
  {
    MaxExists(s);
    MaxUnique(s);
    var m :| IsMaxOf(m, s);
    m
  }
}

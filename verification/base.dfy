/** Shared helpers: optional values, JavaScript truthiness of strings,
    `Array.prototype.join` with the offsets at which each part lands, and
    the lexicographically first string of a set. */
module Base {

  datatype Option<T> = None | Some(value: T)

  /** Document ids (Mongo ObjectIds) are kept as their string form. */
  type Id = string

  /** JavaScript truthiness of a possibly-undefined string: both `undefined`
      and the empty string are falsy. */
  predicate Truthy(o: Option<string>)
  {
    o.Some? && o.value != ""
  }

  /** `parts.join(sep)`. */
  function Join(parts: seq<string>, sep: string): string
  {
    if |parts| == 0 then ""
    else if |parts| == 1 then parts[0]
    else parts[0] + sep + Join(parts[1..], sep)
  }

  /** Where `parts[i]` starts inside `Join(parts, sep)`. */
  function Offset(parts: seq<string>, sep: string, i: nat): nat
    requires i < |parts|
  {
    if i == 0 then 0 else |parts[0]| + |sep| + Offset(parts[1..], sep, i - 1)
  }

  /** Every part appears, unchanged, at its offset in the joined string:
      the joined message carries one fragment per part. Under early abort
      there is one part; the general case is the all-details message. */
  lemma {:induction false} JoinFragment(parts: seq<string>, sep: string, i: nat)
    requires i < |parts|
    ensures Offset(parts, sep, i) + |parts[i]| <= |Join(parts, sep)|
    ensures Join(parts, sep)[Offset(parts, sep, i)..Offset(parts, sep, i) + |parts[i]|] == parts[i]
  {
    var j := Join(parts, sep);
    if |parts| == 1 {
      assert j == parts[0];
    } else if i == 0 {
      assert j == parts[0] + (sep + Join(parts[1..], sep));
      assert j[..|parts[0]|] == parts[0];
    } else {
      var rest := Join(parts[1..], sep);
      var k := |parts[0]| + |sep|;
      var o := Offset(parts[1..], sep, i - 1);
      JoinFragment(parts[1..], sep, i - 1);
      assert parts[1..][i - 1] == parts[i];
      assert j == (parts[0] + sep) + rest;
      assert j[k..] == rest;
      assert j[k + o..k + o + |parts[i]|] == rest[o..o + |parts[i]|];
    }
  }

  /** A join of a single part is that part: no separator is added. */
  lemma JoinSingle(part: string, sep: string)
    ensures Join([part], sep) == part
  {
  }

  /** Lexicographic order on strings, by character code: `a` sorts no
      later than `b`. It gives the unordered keys of a parsed body a fixed
      order, so that the unknown-key report is a function of the body. */
  predicate NoLater(a: string, b: string)
    decreases |a|
  {
    |a| == 0 || (|b| > 0 && (a[0] < b[0] || (a[0] == b[0] && NoLater(a[1..], b[1..]))))
  }

  lemma {:induction false} NoLaterReflexive(a: string)
    ensures NoLater(a, a)
    decreases |a|
  {
    if |a| > 0 {
      NoLaterReflexive(a[1..]);
    }
  }

  lemma {:induction false} NoLaterTotal(a: string, b: string)
    ensures NoLater(a, b) || NoLater(b, a)
    decreases |a|
  {
    if |a| > 0 && |b| > 0 && a[0] == b[0] {
      NoLaterTotal(a[1..], b[1..]);
    }
  }

  lemma {:induction false} NoLaterAntisymmetric(a: string, b: string)
    requires NoLater(a, b) && NoLater(b, a)
    ensures a == b
    decreases |a|
  {
    if |a| > 0 {
      NoLaterAntisymmetric(a[1..], b[1..]);
      assert a == [a[0]] + a[1..] && b == [b[0]] + b[1..];
    }
  }

  lemma {:induction false} NoLaterTransitive(a: string, b: string, c: string)
    requires NoLater(a, b) && NoLater(b, c)
    ensures NoLater(a, c)
    decreases |a|
  {
    if |a| > 0 && a[0] == b[0] && b[0] == c[0] {
      NoLaterTransitive(a[1..], b[1..], c[1..]);
    }
  }

  /** `m` is the first of `s` in lexicographic order. */
  predicate IsLeast(m: string, s: set<string>)
  {
    m in s && forall y | y in s :: NoLater(m, y)
  }

  lemma {:induction false} LeastExists(s: set<string>)
    requires s != {}
    ensures exists m :: IsLeast(m, s)
    decreases |s|
  {
    var x :| x in s;
    NoLaterReflexive(x);
    if s == {x} {
      assert IsLeast(x, s);
    } else {
      LeastExists(s - {x});
      var m :| IsLeast(m, s - {x});
      NoLaterTotal(x, m);
      if NoLater(x, m) {
        forall y | y in s
          ensures NoLater(x, y)
        {
          if y != x {
            NoLaterTransitive(x, m, y);
          }
        }
        assert IsLeast(x, s);
      } else {
        assert IsLeast(m, s);
      }
    }
  }

  /** The first string of a non-empty set, in lexicographic order. */
  function Least(s: set<string>): (m: string)
    requires s != {}
    ensures IsLeast(m, s)
  {
    LeastExists(s);
    assert forall m, n | IsLeast(m, s) && IsLeast(n, s) :: m == n by {
      forall m, n | IsLeast(m, s) && IsLeast(n, s)
        ensures m == n
      {
        NoLaterAntisymmetric(m, n);
      }
    }
    var m :| IsLeast(m, s);
    m
  }
}

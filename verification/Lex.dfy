/**
 Go's order on strings, and the sorted key list that the sanitizer walks.

 A Go string is a sequence of bytes. Throughout the project it is a Dafny `string` in which
 each character stands for one byte, so `|s|` is Go's `len(s)`.
 */
module Lex {

  /** Go's `<` on strings: byte by byte, a proper prefix first. */
  predicate Less(a: string, b: string) {
    && b != ""
    && (a == "" || a[0] < b[0] || (a[0] == b[0] && Less(a[1..], b[1..])))
  }

  predicate AtMost(a: string, b: string) {
    a == b || Less(a, b)
  }

  /** Go's `strings.Contains` and `bytes.Contains`. */
  predicate Contains(s: string, fragment: string) {
    exists i | 0 <= i <= |s| :: fragment <= s[i..]
  }

  lemma {:induction false} Trichotomy(a: string, b: string)
    ensures a == b <==> !Less(a, b) && !Less(b, a)
    ensures !(Less(a, b) && Less(b, a))
  {
    if a != "" && b != "" && a[0] == b[0] {
      Trichotomy(a[1..], b[1..]);
      assert a == [a[0]] + a[1..] && b == [b[0]] + b[1..];
    }
  }

  lemma {:induction false} Transitive(a: string, b: string, c: string)
    requires Less(a, b) && Less(b, c)
    ensures Less(a, c)
  {
    if a != "" && a[0] == b[0] == c[0] {
      Transitive(a[1..], b[1..], c[1..]);
    }
  }

  /** Fixed-width fields compare field by field: the reason zero-padded dates and times sort. */
  lemma {:induction false} FieldByField(a: string, b: string, x: string, y: string)
    requires |a| == |b|
    ensures Less(a + x, b + y) <==> Less(a, b) || (a == b && Less(x, y))
  {
    if a == "" {
      assert a + x == x && b + y == y;
    } else {
      assert (a + x)[1..] == a[1..] + x && (b + y)[1..] == b[1..] + y;
      FieldByField(a[1..], b[1..], x, y);
      assert a == [a[0]] + a[1..] && b == [b[0]] + b[1..];
    }
  }

  lemma {:induction false} SmallestExists(s: set<string>)
    requires s != {}
    ensures exists k :: k in s && forall j :: j in s ==> AtMost(k, j)
  {
    hide Less;
    var x :| x in s;
    if s == {x} {
      assert forall j :: j in s ==> AtMost(x, j);
    } else {
      SmallestExists(s - {x});
      var k :| k in s - {x} && forall j :: j in s - {x} ==> AtMost(k, j);
      Trichotomy(x, k);
      if Less(x, k) {
        forall j | j in s ensures AtMost(x, j) {
          if j != x && j != k {
            assert j in s - {x};
            Transitive(x, k, j);
          }
        }
      } else {
        assert forall j :: j in s ==> AtMost(k, j);
      }
    }
  }

  function Smallest(s: set<string>): (k: string)
    requires s != {}
    ensures k in s && forall j :: j in s ==> AtMost(k, j)
  {
    SmallestExists(s);
    assert forall k, l | k in s && l in s && AtMost(k, l) && AtMost(l, k) :: k == l by {
      forall k, l | k in s && l in s && AtMost(k, l) && AtMost(l, k) ensures k == l {
        Trichotomy(k, l);
      }
    }
    var k :| k in s && forall j :: j in s ==> AtMost(k, j);
    k
  }

  predicate Ascending(keys: seq<string>) {
    forall i, j :: 0 <= i < j < |keys| ==> Less(keys[i], keys[j])
  }

  /** What `sort.Strings` makes of the distinct keys of a map. */
  function SortedKeys(s: set<string>): (keys: seq<string>)
    ensures Ascending(keys)
    ensures |keys| == |s|
    ensures forall k :: k in keys <==> k in s
  {
    if s == {} then []
    else
      var k := Smallest(s);
      var rest := SortedKeys(s - {k});
      assert forall i :: 0 <= i < |rest| ==> rest[i] in rest;
      [k] + rest
  }

  /** Two ascending lists of the same keys are the same list, so "sorted" determines the walk. */
  lemma {:induction false} AscendingIsUnique(a: seq<string>, b: seq<string>)
    requires Ascending(a) && Ascending(b)
    requires forall k :: k in a <==> k in b
    ensures a == b
  {
    if |a| > 0 { assert a[0] in a; }
    if |b| > 0 { assert b[0] in b; }
    if a != [] {
      var j :| 0 <= j < |b| && b[j] == a[0];
      var i :| 0 <= i < |a| && a[i] == b[0];
      Trichotomy(a[0], b[0]);
      assert a[0] == b[0];
      forall k ensures k in a[1..] <==> k in b[1..] {
        if k in a[1..] {
          var m :| 1 <= m < |a| && a[m] == k;
          Trichotomy(a[0], k);
          assert k in a;
        }
        if k in b[1..] {
          var m :| 1 <= m < |b| && b[m] == k;
          Trichotomy(b[0], k);
          assert k in b;
        }
      }
      AscendingIsUnique(a[1..], b[1..]);
      assert a == [a[0]] + a[1..] && b == [b[0]] + b[1..];
    }
  }
}

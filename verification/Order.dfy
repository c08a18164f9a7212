/** The orders the daemon sorts by: strings compare by code point, as their UTF-8 bytes do. */
module Order {

  predicate Less(a: string, b: string) {
    b != [] && (a == [] || a[0] < b[0] || (a[0] == b[0] && Less(a[1..], b[1..])))
  }

  lemma {:induction false} LessIsAsymmetric(a: string, b: string)
    requires Less(a, b)
    ensures !Less(b, a)
  {
    if a != [] && a[0] == b[0] {
      LessIsAsymmetric(a[1..], b[1..]);
    }
  }

  lemma {:induction false} LessIsTransitive(a: string, b: string, c: string)
    requires Less(a, b) && Less(b, c)
    ensures Less(a, c)
  {
    if a != [] && a[0] == b[0] && b[0] == c[0] {
      LessIsTransitive(a[1..], b[1..], c[1..]);
    }
  }

  lemma {:induction false} LessIsTotal(a: string, b: string)
    ensures Less(a, b) || Less(b, a) || a == b
  {
    if a != [] && b != [] && a[0] == b[0] {
      LessIsTotal(a[1..], b[1..]);
    }
  }

  ghost predicate Sorted<T(!new)>(s: seq<T>, less: (T, T) -> bool) {
    forall i, j :: 0 <= i < j < |s| ==> less(s[i], s[j])
  }

  ghost predicate Strict<T(!new)>(less: (T, T) -> bool) {
    (forall x, y :: less(x, y) ==> !less(y, x)) && (forall x, y, z :: less(x, y) && less(y, z) ==> less(x, z))
  }

  lemma HasMember<T>(s: seq<T>)
    ensures s != [] ==> exists x :: x in s
  {
    if s != [] {
      assert s[0] in s;
    }
  }

  /** A strictly sorted list is determined by its members: the order they were found in does not matter. */
  lemma {:induction false} SortedIsUnique<T(!new)>(a: seq<T>, b: seq<T>, less: (T, T) -> bool)
    requires Strict(less) && Sorted(a, less) && Sorted(b, less) && (forall x :: x in a <==> x in b)
    ensures a == b
  {
    if a == [] {
      HasMember(b);
    } else {
      assert a[0] in a && a[0] in b;
      assert b[0] in b && b[0] in a;
      assert a[0] == b[0];
      forall x ensures x in a[1..] <==> x in b[1..] {
        TailMembers(a, less, x);
        TailMembers(b, less, x);
      }
      SortedIsUnique(a[1..], b[1..], less);
    }
  }

  lemma TailMembers<T(!new)>(a: seq<T>, less: (T, T) -> bool, x: T)
    requires Strict(less) && Sorted(a, less) && a != []
    ensures x in a[1..] <==> x in a && x != a[0]
  {
    if x in a && x != a[0] {
      var i :| 0 <= i < |a| && a[i] == x;
      assert a[1..][i - 1] == x;
    }
  }

  /** Puts `x` before the first element that is not less than it. */
  function Insert<T(!new)>(s: seq<T>, x: T, less: (T, T) -> bool): (r: seq<T>)
    ensures |r| == |s| + 1 && forall y :: y in r <==> y == x || y in s
  {
    if s == [] then [x]
    else if less(s[0], x) then
      var rest := Insert(s[1..], x, less);
      assert forall y :: y in s <==> y == s[0] || y in s[1..];
      [s[0]] + rest
    else [x] + s
  }

  lemma {:induction false} InsertSorts<T(!new)>(s: seq<T>, x: T, less: (T, T) -> bool)
    requires Strict(less) && Sorted(s, less) && (forall y :: y in s ==> less(x, y) || less(y, x))
    ensures Sorted(Insert(s, x, less), less)
  {
    if s == [] {
    } else if less(s[0], x) {
      InsertSorts(s[1..], x, less);
      var rest := Insert(s[1..], x, less);
      forall y | y in rest ensures less(s[0], y) {
        if y != x {
          TailMembers(s, less, y);
          var i :| 0 <= i < |s| && s[i] == y;
        }
      }
      assert forall i :: 0 <= i < |rest| ==> rest[i] in rest;
    } else {
      assert s[0] in s && less(x, s[0]);
    }
  }
}

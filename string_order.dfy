/**
 * The ordering `std::string::operator<` uses: lexicographic comparison of the characters.
 * For UTF-8 text the byte order is the code point order, so comparing `char`s gives the same
 * order. `std::map` and `std::set` iterate in this order; sequences kept strictly sorted by it
 * stand for them in the rest of the model.
 */
module StringOrder {

  /** `a` sorts strictly before `b`. */
  predicate Less(a: string, b: string)
    decreases |a|
  {
    if |a| == 0 then |b| > 0
    else if |b| == 0 then false
    else if a[0] != b[0] then a[0] < b[0]
    else Less(a[1..], b[1..])
  }

  lemma {:induction false} LessIrreflexive(a: string)
    ensures !Less(a, a)
    decreases |a|
  {
    if |a| > 0 {
      LessIrreflexive(a[1..]);
    }
  }

  lemma {:induction false} LessTransitive(a: string, b: string, c: string)
    requires Less(a, b) && Less(b, c)
    ensures Less(a, c)
    decreases |a|
  {
    if |a| > 0 && |b| > 0 && |c| > 0 && a[0] == b[0] && b[0] == c[0] {
      LessTransitive(a[1..], b[1..], c[1..]);
    }
  }

  lemma {:induction false} LessTotal(a: string, b: string)
    requires a != b
    ensures Less(a, b) || Less(b, a)
    decreases |a|
  {
    if |a| > 0 && |b| > 0 && a[0] == b[0] {
      LessTotal(a[1..], b[1..]);
    }
  }

  lemma {:induction false} LessAsymmetric(a: string, b: string)
    requires Less(a, b)
    ensures !Less(b, a)
  {
    if Less(b, a) {
      LessTransitive(a, b, a);
      LessIrreflexive(a);
    }
  }

  /** Strictly ascending, hence free of duplicates: the iteration order of a `std::set`. */
  predicate StrictlySorted(s: seq<string>)
  {
    forall i, j :: 0 <= i < j < |s| ==> Less(s[i], s[j])
  }

  lemma SortedDistinct(s: seq<string>, i: int, j: int)
    requires StrictlySorted(s)
    requires 0 <= i < |s| && 0 <= j < |s| && i != j
    ensures s[i] != s[j]
  {
    if i < j {
      if s[i] == s[j] { LessIrreflexive(s[i]); }
    } else {
      if s[i] == s[j] { LessIrreflexive(s[i]); }
    }
  }

  /** `std::set<std::string>::insert`: adds `x` at its place, or leaves the set as it is. */
  function Insert(s: seq<string>, x: string): (r: seq<string>)
    requires StrictlySorted(s)
    ensures StrictlySorted(r)
    ensures forall y :: y in r <==> y in s || y == x
    ensures x in s ==> r == s
  {
    if |s| == 0 then [x]
    else if x == s[0] then s
    else if Less(x, s[0]) then
      InsertBefore(s, x);
      [x] + s
    else
      LessTotal(x, s[0]);
      var rest := Insert(s[1..], x);
      HeadBelowAll(s, rest, x);
      [s[0]] + rest
  }

  lemma InsertBefore(s: seq<string>, x: string)
    requires StrictlySorted(s) && |s| > 0 && Less(x, s[0])
    ensures StrictlySorted([x] + s)
    ensures x !in s
  {
    if x in s {
      var k :| 0 <= k < |s| && s[k] == x;
      if k == 0 { LessIrreflexive(x); } else { LessTransitive(x, s[0], x); LessIrreflexive(x); }
    }
    forall j | 1 <= j < |s| + 1
      ensures Less(([x] + s)[0], ([x] + s)[j])
    {
      if j > 1 { LessTransitive(x, s[0], s[j - 1]); }
    }
  }

  lemma HeadBelowAll(s: seq<string>, rest: seq<string>, x: string)
    requires StrictlySorted(s) && |s| > 0 && Less(s[0], x)
    requires StrictlySorted(rest)
    requires forall y :: y in rest <==> y in s[1..] || y == x
    ensures StrictlySorted([s[0]] + rest)
  {
    forall j | 0 <= j < |rest|
      ensures Less(s[0], rest[j])
    {
      assert rest[j] in rest;
      if rest[j] != x {
        var k :| 0 <= k < |s[1..]| && s[1..][k] == rest[j];
        assert s[k + 1] == rest[j];
      }
    }
  }
}

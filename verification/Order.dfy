/** Options, the byte-wise order of Go strings, sorting, and what several modules need of sequences. */
module Order {

  datatype Option<+T> = None | Some(value: T)

  /** `a < b` on Go strings: the first differing character decides, a proper prefix comes first. */
  predicate Less(a: string, b: string) {
    if b == "" then false
    else if a == "" then true
    else if a[0] != b[0] then a[0] < b[0]
    else Less(a[1..], b[1..])
  }

  /** Two strings agree up to `i`, where the first ends or has the smaller character. */
  ghost predicate Differ(a: string, b: string, i: nat) {
    && i <= |a| && i < |b| && a[..i] == b[..i]
    && (i == |a| || a[i] < b[i])
  }

  /** The order is that of the first difference, a proper prefix coming first. */
  lemma {:induction false} LessExactly(a: string, b: string)
    ensures Less(a, b) <==> exists i: nat :: Differ(a, b, i)
  {
    if a != "" && b != "" && a[0] == b[0] {
      var c, d := a[1..], b[1..];
      LessExactly(c, d);
      if i: nat :| Differ(c, d, i) {
        assert a[..i + 1] == [a[0]] + c[..i] && b[..i + 1] == [b[0]] + d[..i];
        assert Differ(a, b, i + 1);
      }
      if i: nat :| Differ(a, b, i) {
        assert i > 0 && c[..i - 1] == a[..i][1..] && d[..i - 1] == b[..i][1..];
        assert Differ(c, d, i - 1);
      }
    } else {
      if Less(a, b) { assert Differ(a, b, 0); }
      forall i: nat | a != "" && b != "" && Differ(a, b, i) ensures i == 0 || a[0] == b[0] { DifferLater(a, b, i); }
    }
  }

  lemma DifferLater(a: string, b: string, i: nat)
    requires a != "" && b != "" && Differ(a, b, i)
    ensures i == 0 || a[0] == b[0]
  {
    if i > 0 { assert a[0] == a[..i][0] && b[0] == b[..i][0]; }
  }

  lemma {:induction false} LessTrichotomy(a: string, b: string)
    ensures Less(a, b) || a == b || Less(b, a)
    ensures !(Less(a, b) && Less(b, a))
    ensures !Less(a, a)
  {
    if a != "" && b != "" && a[0] == b[0] {
      LessTrichotomy(a[1..], b[1..]);
      assert a == [a[0]] + a[1..] && b == [b[0]] + b[1..];
    }
    if a != "" { LessTrichotomy(a[1..], a[1..]); }
  }

  lemma {:induction false} LessTransitive(a: string, b: string, c: string)
    requires Less(a, b) && Less(b, c)
    ensures Less(a, c)
  {
    if a != "" && b != "" && c != "" && a[0] == b[0] == c[0] {
      LessTransitive(a[1..], b[1..], c[1..]);
    }
  }

  /** Strictly increasing, hence without repetition. */
  ghost predicate Increasing(s: seq<string>) {
    forall i, j :: 0 <= i < j < |s| ==> Less(s[i], s[j])
  }

  /** A strictly increasing sequence is determined by its elements. */
  lemma {:induction false} IncreasingUnique(a: seq<string>, b: seq<string>)
    requires Increasing(a) && Increasing(b)
    requires forall x :: x in a <==> x in b
    ensures a == b
  {
    assert (a != [] ==> a[0] in a) && (b != [] ==> b[0] in b);
    if a != [] {
      var i :| 0 <= i < |b| && b[i] == a[0];
      var j :| 0 <= j < |a| && a[j] == b[0];
      LessTrichotomy(a[0], b[0]);
      assert a[0] == b[0];
      forall x ensures x in a[1..] <==> x in b[1..] {
        LessTrichotomy(a[0], a[0]);
        assert x in a[1..] ==> x in a && Less(a[0], x);
        assert x in b[1..] ==> x in b && Less(b[0], x);
        assert x in a && x != a[0] ==> x in a[1..];
        assert x in b && x != b[0] ==> x in b[1..];
      }
      IncreasingUnique(a[1..], b[1..]);
      assert a == [a[0]] + a[1..] && b == [b[0]] + b[1..];
    }
  }

  // Sorting by a caller's comparison, as slices.SortFunc, sort.Slice and sort.Strings do.

  /** The demands Go's sort makes of a comparison. */
  ghost predicate StrictWeakOrder<T(!new)>(less: (T, T) -> bool) {
    && (forall x :: !less(x, x))
    && (forall x, y, z :: less(x, y) && less(y, z) ==> less(x, z))
    && (forall x, y, z :: !less(x, y) && !less(y, z) ==> !less(x, z))
  }

  ghost predicate SortedBy<T>(less: (T, T) -> bool, s: seq<T>) {
    forall i, j :: 0 <= i < j < |s| ==> !less(s[j], s[i])
  }

  function Insert<T>(less: (T, T) -> bool, x: T, s: seq<T>): seq<T> {
    if s == [] then [x]
    else if less(s[0], x) then [s[0]] + Insert(less, x, s[1..])
    else [x] + s
  }

  function Sort<T>(less: (T, T) -> bool, s: seq<T>): seq<T> {
    if s == [] then [] else Insert(less, s[0], Sort(less, s[1..]))
  }

  lemma {:induction false} InsertPermutes<T>(less: (T, T) -> bool, x: T, s: seq<T>)
    ensures multiset(Insert(less, x, s)) == multiset(s) + multiset{x}
  {
    if s != [] {
      assert s == [s[0]] + s[1..];
      InsertPermutes(less, x, s[1..]);
    }
  }

  lemma {:induction false} SortPermutes<T>(less: (T, T) -> bool, s: seq<T>)
    ensures multiset(Sort(less, s)) == multiset(s)
    ensures |Sort(less, s)| == |s|
    ensures forall x :: x in Sort(less, s) <==> x in s
  {
    if s != [] {
      assert s == [s[0]] + s[1..];
      SortPermutes(less, s[1..]);
      InsertPermutes(less, s[0], Sort(less, s[1..]));
    }
    assert |multiset(Sort(less, s))| == |multiset(s)|;
    assert forall x :: x in Sort(less, s) <==> x in multiset(Sort(less, s));
  }

  lemma {:induction false} InsertSorts<T(!new)>(less: (T, T) -> bool, x: T, s: seq<T>)
    requires StrictWeakOrder(less) && SortedBy(less, s)
    ensures SortedBy(less, Insert(less, x, s))
  {
    if s != [] && less(s[0], x) {
      InsertSorts(less, x, s[1..]);
      InsertPermutes(less, x, s[1..]);
      var r := Insert(less, x, s[1..]);
      forall j | 0 <= j < |r| ensures !less(r[j], s[0]) {
        assert r[j] in multiset(r);
        if r[j] != x {
          assert r[j] in s[1..];
          var k :| 0 <= k < |s[1..]| && s[1..][k] == r[j];
          assert s[k + 1] == r[j];
        }
      }
    }
  }

  lemma {:induction false} SortSorts<T(!new)>(less: (T, T) -> bool, s: seq<T>)
    requires StrictWeakOrder(less)
    ensures SortedBy(less, Sort(less, s))
  {
    if s != [] {
      SortSorts(less, s[1..]);
      InsertSorts(less, s[0], Sort(less, s[1..]));
    }
  }

  lemma {:induction false} LessIsStrictWeakOrder()
    ensures StrictWeakOrder(Less)
  {
    forall x, y, z
      ensures !Less(x, x)
      ensures Less(x, y) && Less(y, z) ==> Less(x, z)
      ensures !Less(x, y) && !Less(y, z) ==> !Less(x, z)
    {
      LessTrichotomy(x, y);
      LessTrichotomy(y, z);
      LessTrichotomy(x, z);
      if Less(x, y) && Less(y, z) { LessTransitive(x, y, z); }
      if Less(z, y) && Less(y, x) { LessTransitive(z, y, x); }
    }
  }

  ghost predicate Distinct<T>(s: seq<T>) {
    forall i, j :: 0 <= i < j < |s| ==> s[i] != s[j]
  }

  lemma IncreasingDistinct(s: seq<string>)
    requires Increasing(s)
    ensures Distinct(s)
  {
    forall i, j | 0 <= i < j < |s| ensures s[i] != s[j] { LessTrichotomy(s[i], s[j]); }
  }

  /** Distinctness only depends on the multiset of elements. */
  lemma DistinctPermutation<T>(s: seq<T>, t: seq<T>)
    requires Distinct(s) && multiset(s) == multiset(t)
    ensures Distinct(t)
  {
    forall i, j | 0 <= i < j < |t| ensures t[i] != t[j] {
      RepeatMultiplicity(t, i, j);
      DistinctMultiplicity(s, t[i]);
    }
  }

  lemma RepeatMultiplicity<T>(t: seq<T>, i: nat, j: nat)
    requires i < j < |t|
    ensures t[i] == t[j] ==> multiset(t)[t[i]] >= 2
  {
    assert t == t[..i] + [t[i]] + t[i + 1..j] + [t[j]] + t[j + 1..];
  }

  lemma {:induction false} DistinctMultiplicity<T>(s: seq<T>, x: T)
    requires Distinct(s)
    ensures multiset(s)[x] <= 1
  {
    if s != [] {
      assert s == [s[0]] + s[1..];
      DistinctMultiplicity(s[1..], x);
      assert s[0] == x ==> x !in s[1..];
    }
  }

  /** sort.Strings on distinct IDs: the one increasing sequence of those IDs. */
  lemma SortStrings(s: seq<string>)
    requires Distinct(s)
    ensures Increasing(Sort(Less, s))
    ensures forall x :: x in Sort(Less, s) <==> x in s
    ensures |Sort(Less, s)| == |s|
  {
    LessIsStrictWeakOrder();
    SortPermutes(Less, s);
    SortSorts(Less, s);
    var r := Sort(Less, s);
    DistinctPermutation(s, r);
    forall i, j | 0 <= i < j < |r| ensures Less(r[i], r[j]) {
      LessTrichotomy(r[i], r[j]);
    }
  }

  /** The increasing sequence of a set of IDs. */
  ghost function Ascending(ids: set<string>): (r: seq<string>)
    ensures Increasing(r)
    ensures forall x :: x in r <==> x in ids
  {
    if ids == {} then [] else
      var x :| x in ids;
      var rest := Ascending(ids - {x});
      InsertIncreasing(x, rest);
      Insert(Less, x, rest)
  }

  lemma InsertIncreasing(x: string, s: seq<string>)
    requires Increasing(s) && x !in s
    ensures Increasing(Insert(Less, x, s))
    ensures forall y :: y in Insert(Less, x, s) <==> y == x || y in s
  {
    LessIsStrictWeakOrder();
    forall i, j | 0 <= i < j < |s| ensures !Less(s[j], s[i]) && s[i] != s[j] {
      LessTrichotomy(s[i], s[j]);
    }
    InsertSorts(Less, x, s);
    InsertPermutes(Less, x, s);
    var r := Insert(Less, x, s);
    assert Distinct([x] + s);
    assert multiset([x] + s) == multiset(r);
    DistinctPermutation([x] + s, r);
    forall i, j | 0 <= i < j < |r| ensures Less(r[i], r[j]) {
      LessTrichotomy(r[i], r[j]);
    }
    assert forall y :: y in r <==> y in multiset(r);
  }

  /** Positions below `n`, in order and none twice. */
  ghost predicate Positions(at: seq<nat>, n: nat) {
    && (forall j :: 0 <= j < |at| ==> at[j] < n)
    && (forall i, j :: 0 <= i < j < |at| ==> at[i] < at[j])
  }

  lemma MorePositions(at: seq<nat>, n: nat)
    requires Positions(at, n)
    ensures Positions(at, n + 1) && Positions(at + [n], n + 1)
    ensures n !in at && forall i :: i in at + [n] <==> i in at || i == n
  {
  }

  lemma NoneInCommon<T>(a: set<T>, b: set<T>)
    ensures a * b == {} <==> forall x :: x in b ==> x !in a
  {
    if forall x :: x in b ==> x !in a { assert forall x :: x !in a * b; }
    if a * b == {} { forall x | x in b ensures x !in a { assert x !in a * b; } }
  }

  /** A sequence without repetition is no longer than a set that holds its elements. */
  lemma {:induction false} Pigeonhole<T>(p: seq<T>, s: set<T>)
    requires forall i :: 0 <= i < |p| ==> p[i] in s
    requires Distinct(p)
    ensures |p| <= |s|
  {
    if p != [] {
      var last := p[|p| - 1];
      Pigeonhole(p[..|p| - 1], s - {last});
    }
  }

  /** strings.Index of one character: its first position in `s`, or |s|. */
  function Find(s: string, c: char): (i: nat)
    ensures i <= |s| && c !in s[..i]
    ensures i < |s| ==> s[i] == c
  {
    if s == "" || s[0] == c then 0
    else
      var i := Find(s[1..], c);
      assert s[..i + 1] == [s[0]] + s[1..][..i];
      i + 1
  }

  lemma FindAt(s: string, c: char, i: nat)
    requires i <= |s| && c !in s[..i] && (i < |s| ==> s[i] == c)
    ensures Find(s, c) == i
  {
  }
}

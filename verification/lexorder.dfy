/**
 * Rust's ordering on `String` (lexicographic on the characters, which is the
 * same as byte order on their UTF-8 encodings) and `Vec::sort` on strings,
 * written as an insertion sort. Since equal strings cannot be told apart,
 * a stable sort and any other correct sort give the same sequence; `SortedUnique`
 * is what makes that precise.
 */
module LexOrder {

  /** `a < b` in Rust's `Ord for str`. */
  predicate Less(a: string, b: string)
    decreases |a|
  {
    if a == [] then b != []
    else if b == [] then false
    else if a[0] == b[0] then Less(a[1..], b[1..])
    else a[0] < b[0]
  }

  lemma {:induction false} LessIrreflexive(a: string)
    ensures !Less(a, a)
    decreases |a|
  {
    if a != [] {
      LessIrreflexive(a[1..]);
    }
  }

  lemma {:induction false} LessTransitive(a: string, b: string, c: string)
    requires Less(a, b) && Less(b, c)
    ensures Less(a, c)
    decreases |a|
  {
    if a != [] && b != [] && c != [] && a[0] == b[0] && b[0] == c[0] {
      LessTransitive(a[1..], b[1..], c[1..]);
    }
  }

  lemma {:induction false} LessTotal(a: string, b: string)
    requires a != b
    ensures Less(a, b) || Less(b, a)
    decreases |a|
  {
    if a != [] && b != [] && a[0] == b[0] {
      assert a == [a[0]] + a[1..] && b == [b[0]] + b[1..];
      LessTotal(a[1..], b[1..]);
    }
  }

  lemma LessAsymmetric(a: string, b: string)
    requires Less(a, b)
    ensures !Less(b, a)
  {
    if Less(b, a) {
      LessTransitive(a, b, a);
      LessIrreflexive(a);
    }
  }

  /** Non-decreasing in Rust's string order. */
  predicate Sorted(s: seq<string>) {
    forall i, j :: 0 <= i < j < |s| ==> !Less(s[j], s[i])
  }

  /** Inserts `x` before the first element that is not less than it. */
  function Insert(x: string, s: seq<string>): (r: seq<string>)
    requires Sorted(s)
    ensures Sorted(r)
    ensures multiset(r) == multiset(s) + multiset{x}
    ensures |r| == |s| + 1
  {
    if s == [] then [x]
    else if Less(s[0], x) then
      var rest := Insert(x, s[1..]);
      assert multiset(s) == multiset{s[0]} + multiset(s[1..]) by { assert s == [s[0]] + s[1..]; }
      InsertSortedCons(s[0], x, s[1..], rest);
      [s[0]] + rest
    else
      SortedConsMin(x, s);
      [x] + s
  }

  lemma SortedConsMin(x: string, s: seq<string>)
    requires Sorted(s) && s != [] && !Less(s[0], x)
    ensures Sorted([x] + s)
  {
    forall i, j | 0 <= i < j < |s| + 1
      ensures !Less(([x] + s)[j], ([x] + s)[i])
    {
      if i == 0 {
        var y := s[j - 1];
        if Less(y, x) {
          if j - 1 == 0 {
          } else {
            assert !Less(y, s[0]);
            if y == s[0] {
            } else {
              LessTotal(y, s[0]);
              LessTransitive(s[0], y, x);
            }
          }
        }
      }
    }
  }

  lemma InsertSortedCons(head: string, x: string, tail: seq<string>, rest: seq<string>)
    requires Sorted([head] + tail) && Less(head, x)
    requires Sorted(rest) && multiset(rest) == multiset(tail) + multiset{x}
    ensures Sorted([head] + rest)
  {
    forall j | 0 <= j < |rest| ensures !Less(rest[j], head) {
      assert rest[j] in multiset(rest);
      if rest[j] == x {
        LessAsymmetric(head, x);
      } else {
        assert rest[j] in multiset(tail);
        var k :| 0 <= k < |tail| && tail[k] == rest[j];
        assert ([head] + tail)[k + 1] == tail[k] && ([head] + tail)[0] == head;
      }
    }
  }

  /** `Vec::sort` on strings. */
  function SortLex(s: seq<string>): (r: seq<string>)
    ensures Sorted(r)
    ensures multiset(r) == multiset(s)
    ensures |r| == |s|
  {
    if s == [] then []
    else
      assert s == [s[0]] + s[1..];
      Insert(s[0], SortLex(s[1..]))
  }

  /** A sorted sequence is determined by its multiset of elements. */
  lemma {:induction false} SortedUnique(a: seq<string>, b: seq<string>)
    requires Sorted(a) && Sorted(b)
    requires multiset(a) == multiset(b)
    ensures a == b
    decreases |a|
  {
    if a != [] {
      assert |b| == |a| by { assert |multiset(a)| == |multiset(b)|; }
      SortedHeadsEqual(a, b);
      DropHead(a);
      DropHead(b);
      SortedTail(a);
      SortedTail(b);
      SortedUnique(a[1..], b[1..]);
      assert a == [a[0]] + a[1..] && b == [b[0]] + b[1..];
    }
  }

  /** Two sorted sequences with the same elements start with the same element. */
  lemma SortedHeadsEqual(a: seq<string>, b: seq<string>)
    requires Sorted(a) && Sorted(b) && a != [] && b != []
    requires multiset(a) == multiset(b)
    ensures a[0] == b[0]
  {
    assert a[0] in multiset(b);
    assert b[0] in multiset(a);
    var i :| 0 <= i < |b| && b[i] == a[0];
    var j :| 0 <= j < |a| && a[j] == b[0];
    LessIrreflexive(a[0]);
    LessIrreflexive(b[0]);
    if i > 0 {
      assert !Less(b[i], b[0]);
    }
    if j > 0 {
      assert !Less(a[j], a[0]);
    }
    if a[0] != b[0] {
      LessTotal(a[0], b[0]);
    }
  }

  lemma DropHead(a: seq<string>)
    requires a != []
    ensures multiset(a[1..]) == multiset(a) - multiset{a[0]}
  {
    assert a == [a[0]] + a[1..];
  }

  lemma SortedTail(a: seq<string>)
    requires Sorted(a) && a != []
    ensures Sorted(a[1..])
  {
    forall i, j | 0 <= i < j < |a| - 1 ensures !Less(a[1..][j], a[1..][i]) {
      assert a[1..][j] == a[j + 1] && a[1..][i] == a[i + 1];
    }
  }

  /** Sorting depends only on the multiset of the input: any permutation sorts to the same sequence. */
  lemma SortPermutationInvariant(a: seq<string>, b: seq<string>)
    requires multiset(a) == multiset(b)
    ensures SortLex(a) == SortLex(b)
  {
    SortedUnique(SortLex(a), SortLex(b));
  }
}

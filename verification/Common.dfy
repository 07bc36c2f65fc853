/** Types shared by every module of the model. */
module Common {
  datatype Option<+T> = None | Some(value: T)

  /** Instants, in milliseconds since the epoch. */
  type Time = int

  /** The currencies the program supports. */
  datatype Currency = EUR | GBP | USD

  predicate IsDigit(c: char) {
    '0' <= c <= '9'
  }

  function Digit(c: char): int
    requires IsDigit(c)
  {
    (c - '0') as int
  }

  /** The ten digits, in order. */
  lemma DigitsInOrder(c: char)
    ensures IsDigit(c) <==> c in "0123456789"
    ensures forall n :: 0 <= n < 10 ==> IsDigit("0123456789"[n]) && Digit("0123456789"[n]) == n
  {
    if IsDigit(c) { assert "0123456789"[Digit(c)] == c; }
  }

  /** A sequence that lists no element twice. */
  ghost predicate Distinct<T>(s: seq<T>) {
    forall i, j :: 0 <= i < j < |s| ==> s[i] != s[j]
  }

  /** The elements of a sequence. */
  function Elements<T>(s: seq<T>): set<T> {
    set x | x in s
  }

  /** A duplicate-free sequence has as many elements as positions. */
  lemma {:induction false} DistinctSize<T>(s: seq<T>)
    ensures |Elements(s)| <= |s|
    ensures Distinct(s) <==> |Elements(s)| == |s|
  {
    if s == [] {
    } else {
      var front, last := s[..|s| - 1], s[|s| - 1];
      assert s == front + [last];
      DistinctSize(front);
      assert Elements(s) == Elements(front) + {last};
      if last in front {
        assert Elements(s) == Elements(front);
        assert !Distinct(s) by {
          var i :| 0 <= i < |front| && front[i] == last;
          assert s[i] == s[|s| - 1];
        }
      } else {
        assert |Elements(s)| == |Elements(front)| + 1;
        assert Distinct(s) <==> Distinct(front) by {
          if Distinct(front) {
            forall i, j | 0 <= i < j < |s| ensures s[i] != s[j] {
              if j == |s| - 1 { assert s[i] in front; }
            }
          }
          if Distinct(s) {
            forall i, j | 0 <= i < j < |front| ensures front[i] != front[j] {
              assert front[i] == s[i] && front[j] == s[j];
            }
          }
        }
      }
    }
  }

  /** A finite set inside another of the same size is that other set. */
  lemma SubsetOfSameSize<T>(a: set<T>, b: set<T>)
    requires a <= b && |a| == |b|
    ensures a == b
  {
    assert b == a + (b - a);
    assert |b| == |a| + |b - a|;
  }

  /** A reordering has the same members. */
  lemma SameMembers<T>(a: seq<T>, b: seq<T>)
    requires multiset(a) == multiset(b)
    ensures forall x :: x in a <==> x in b
  {
    forall x ensures x in a <==> x in b {
      assert x in multiset(a) <==> x in multiset(b);
    }
  }

  /** The other elements, when one of them is taken out. */
  lemma TakenOut<T>(s: seq<T>, x: T) returns (rest: seq<T>)
    requires x in s
    ensures multiset([x] + rest) == multiset(s) == multiset(rest + [x]) && |rest| + 1 == |s|
  {
    var j :| 0 <= j < |s| && s[j] == x;
    rest := s[..j] + s[j + 1..];
    assert s == s[..j] + [x] + s[j + 1..];
  }
}

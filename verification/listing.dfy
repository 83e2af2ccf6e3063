/**
 * The query of `getAssessments` (actions/interview.js): the rows of one user,
 * ordered by `createdAt` ascending.
 */
module AssessmentListing {
  import opened Records

  /** The rows owned by user `uid`, every one of them and no other. */
  function OwnedBy(rows: seq<Assessment>, uid: nat): (r: seq<Assessment>)
    ensures forall a :: multiset(r)[a] == if a.userId == uid then multiset(rows)[a] else 0
    decreases |rows|
  {
    if rows == [] then []
    else
      assert rows == [rows[0]] + rows[1..];
      (if rows[0].userId == uid then [rows[0]] else []) + OwnedBy(rows[1..], uid)
  }

  predicate SortedByCreatedAt(s: seq<Assessment>) {
    forall i, j :: 0 <= i < j < |s| ==> s[i].createdAt <= s[j].createdAt
  }

  /** Putting a row in front of a sorted list that starts no earlier keeps it sorted. */
  lemma SortedCons(x: Assessment, t: seq<Assessment>)
    requires SortedByCreatedAt(t)
    requires t == [] || x.createdAt <= t[0].createdAt
    ensures SortedByCreatedAt([x] + t)
  {
    var u := [x] + t;
    forall i, j | 0 <= i < j < |u| ensures u[i].createdAt <= u[j].createdAt {
      if i == 0 {
        assert u[j] == t[j - 1];
        assert t[0].createdAt <= t[j - 1].createdAt;
      } else {
        assert u[i] == t[i - 1] && u[j] == t[j - 1];
      }
    }
  }

  /** Inserts `a` before the first row that is not older than it. */
  function InsertByCreatedAt(a: Assessment, s: seq<Assessment>): seq<Assessment>
    decreases |s|
  {
    if s == [] then [a]
    else if a.createdAt <= s[0].createdAt then [a] + s
    else [s[0]] + InsertByCreatedAt(a, s[1..])
  }

  /**
   * Inserting into a list sorted by createdAt keeps it sorted and adds exactly
   * the one row; the new head is the row or the old head.
   */
  lemma {:induction false} InsertByCreatedAtSpec(a: Assessment, s: seq<Assessment>)
    requires SortedByCreatedAt(s)
    ensures SortedByCreatedAt(InsertByCreatedAt(a, s))
    ensures multiset(InsertByCreatedAt(a, s)) == multiset(s) + multiset{a}
    ensures |InsertByCreatedAt(a, s)| == |s| + 1
    ensures InsertByCreatedAt(a, s)[0] == a || (s != [] && InsertByCreatedAt(a, s)[0] == s[0])
    decreases |s|
  {
    if s == [] {
    } else if a.createdAt <= s[0].createdAt {
      SortedCons(a, s);
    } else {
      assert SortedByCreatedAt(s[1..]) by {
        forall i, j | 0 <= i < j < |s| - 1 ensures s[1..][i].createdAt <= s[1..][j].createdAt {
          assert s[1..][i] == s[i + 1] && s[1..][j] == s[j + 1];
        }
      }
      InsertByCreatedAtSpec(a, s[1..]);
      var rest := InsertByCreatedAt(a, s[1..]);
      assert s == [s[0]] + s[1..];
      assert s[0].createdAt <= rest[0].createdAt by {
        if rest[0] != a {
          assert rest[0] == s[1];
        }
      }
      SortedCons(s[0], rest);
    }
  }

  /** `orderBy: { createdAt: "asc" }` as an insertion sort; equal times keep their order. */
  function SortByCreatedAt(s: seq<Assessment>): seq<Assessment>
    decreases |s|
  {
    if s == [] then [] else InsertByCreatedAt(s[0], SortByCreatedAt(s[1..]))
  }

  /** The sorted list is ordered by createdAt ascending and holds the same rows. */
  lemma {:induction false} SortByCreatedAtSpec(s: seq<Assessment>)
    ensures SortedByCreatedAt(SortByCreatedAt(s))
    ensures multiset(SortByCreatedAt(s)) == multiset(s)
    decreases |s|
  {
    if s != [] {
      SortByCreatedAtSpec(s[1..]);
      InsertByCreatedAtSpec(s[0], SortByCreatedAt(s[1..]));
      assert s == [s[0]] + s[1..];
    }
  }
}

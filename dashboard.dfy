/**
 * The two read-only views the dashboard derives from the registry: the
 * case-insensitive name search and the total / active / overdue counts.
 */
module Dashboard {
  import opened Types
  import opened Seqs

  // ---------------------------------------------------------------------------
  // Name search

  /** Lower-cases the letters A to Z and leaves every other character alone. */
  function LowerChar(c: char): char
  {
    if 'A' <= c <= 'Z' then (c as int + ('a' as int - 'A' as int)) as char else c
  }

  function Lower(s: string): (r: string)
    ensures |r| == |s|
    ensures forall i :: 0 <= i < |s| ==> r[i] == LowerChar(s[i])
  {
    Map(s, LowerChar)
  }

  /** `q` occurs in `s` as a contiguous block starting at position `i`. */
  predicate OccursAt(s: string, q: string, i: int)
  {
    0 <= i && i + |q| <= |s| && s[i..i + |q|] == q
  }

  /** Substring test: `q` is a prefix of `s` or of one of its suffixes. */
  function Includes(s: string, q: string): (r: bool)
    ensures q <= s ==> r
    ensures r ==> |q| <= |s|
    decreases |s|
  {
    q <= s || (s != [] && Includes(s[1..], q))
  }

  /** `Includes` holds exactly when the query occurs somewhere in the string. */
  lemma {:induction false} IncludesIff(s: string, q: string)
    ensures Includes(s, q) <==> exists i :: OccursAt(s, q, i)
  {
    if q <= s {
      assert s[0..|q|] == q;
      assert OccursAt(s, q, 0);
    } else if s == [] {
      assert forall i :: !OccursAt(s, q, i);
    } else {
      IncludesIff(s[1..], q);
      assert !OccursAt(s, q, 0);
      forall i | OccursAt(s, q, i) ensures i >= 1 && OccursAt(s[1..], q, i - 1) {
        assert s[1..][i - 1..i - 1 + |q|] == s[i..i + |q|];
      }
      forall i | OccursAt(s[1..], q, i) ensures OccursAt(s, q, i + 1) {
        assert s[1..][i..i + |q|] == s[i + 1..i + 1 + |q|];
      }
      if Includes(s, q) {
        var i :| OccursAt(s[1..], q, i);
        assert OccursAt(s, q, i + 1);
      }
    }
  }

  /** The empty query is found in every string. */
  lemma IncludesEmpty(s: string)
    ensures Includes(s, [])
  {
  }

  predicate NameMatches(s: Student, query: string)
  {
    Includes(Lower(s.name), Lower(query))
  }

  function MatchesQuery(query: string): Student -> bool
  {
    (s: Student) => NameMatches(s, query)
  }

  /**
   * The students whose lower-cased name contains the lower-cased query, in
   * registry order: all occurrences of those, and nothing else.
   */
  function FilteredStudents(ss: seq<Student>, query: string): (r: seq<Student>)
    ensures IsSubsequence(r, ss)
    ensures forall s :: multiset(r)[s] == if NameMatches(s, query) then multiset(ss)[s] else 0
  {
    FilterSpec(ss, MatchesQuery(query));
    Filter(ss, MatchesQuery(query))
  }

  /** An empty search box shows the whole registry. */
  lemma {:induction false} EmptyQueryShowsAll(ss: seq<Student>)
    ensures FilteredStudents(ss, "") == ss
  {
    assert Lower("") == "";
    forall i | 0 <= i < |ss| ensures MatchesQuery("")(ss[i]) {
      IncludesEmpty(Lower(ss[i].name));
    }
    FilterKeepsAll(ss, MatchesQuery(""));
  }

  // ---------------------------------------------------------------------------
  // Statistics

  /** Overdue: no lessons left, or the payment cycle has run out. */
  predicate IsOverdue(s: Student, now: int)
  {
    s.lessonBalance <= 0 || s.cycleExpiration < now
  }

  function OverdueAt(now: int): Student -> bool
  {
    (s: Student) => IsOverdue(s, now)
  }

  function ActiveAt(now: int): Student -> bool
  {
    (s: Student) => !IsOverdue(s, now)
  }

  /** The three dashboard counters. */
  datatype Stats = Stats(total: int, overdue: int, active: int)

  /**
   * `overdue` counts the overdue students; `active` is the rest, and equals
   * the number of students that are not overdue.
   */
  function ComputeStats(ss: seq<Student>, now: int): (r: Stats)
    ensures r.total == |ss|
    ensures 0 <= r.overdue <= r.total
    ensures r.active == r.total - r.overdue
    ensures r.active == |Filter(ss, ActiveAt(now))|
    ensures r.overdue == 0 <==> forall i :: 0 <= i < |ss| ==> !IsOverdue(ss[i], now)
    ensures r.active == 0 <==> forall i :: 0 <= i < |ss| ==> IsOverdue(ss[i], now)
  {
    var overdue := |Filter(ss, OverdueAt(now))|;
    FilterPartition(ss, OverdueAt(now), ActiveAt(now));
    FilterEmpty(ss, OverdueAt(now));
    FilterEmpty(ss, ActiveAt(now));
    Stats(|ss|, overdue, |ss| - overdue)
  }

  /**
   * A student with no lessons left is overdue whatever the cycle says; one
   * whose cycle has ended is overdue whatever the balance; one with lessons
   * left and a running cycle is not.
   */
  lemma OverdueCases(s: Student, now: int)
    ensures s.lessonBalance <= 0 ==> IsOverdue(s, now)
    ensures s.cycleExpiration < now ==> IsOverdue(s, now)
    ensures s.lessonBalance > 0 && s.cycleExpiration >= now ==> !IsOverdue(s, now)
  {
  }
}

/** The search box of components/org-chart.tsx: a case-insensitive substring
    match on an employee's name or title, and the filter that keeps each
    level's cards whose employee survived the search. */
module Search {
  import opened EmployeeTypes

  // ---------------------------------------------------------------------------
  // Array.prototype.filter

  /** `a` can be obtained from `b` by deleting entries: it keeps their order. */
  ghost predicate IsSubsequence<T>(a: seq<T>, b: seq<T>)
    decreases |b|
  {
    a == [] || (b != [] && ((a[0] == b[0] && IsSubsequence(a[1..], b[1..])) || IsSubsequence(a, b[1..])))
  }

  /** The entries of `s` that `keep` accepts, in their original order. */
  function Filter<T(!new)>(s: seq<T>, keep: T -> bool): (r: seq<T>)
    ensures |r| <= |s|
    ensures forall x :: x in r <==> x in s && keep(x)
    ensures IsSubsequence(r, s)
    ensures forall x :: multiset(r)[x] == if keep(x) then multiset(s)[x] else 0
  {
    if s == [] then []
    else
      var rest := Filter(s[1..], keep);
      assert forall x :: x in s <==> x == s[0] || x in s[1..];
      assert s == [s[0]] + s[1..];
      assert multiset(s) == multiset([s[0]]) + multiset(s[1..]);
      if keep(s[0]) then [s[0]] + rest else rest
  }

  /** A filter that accepts every entry returns the sequence unchanged. */
  lemma {:induction false} FilterKeepsAll<T(!new)>(s: seq<T>, keep: T -> bool)
    requires forall x :: x in s ==> keep(x)
    ensures Filter(s, keep) == s
  {
    if s != [] {
      assert s[0] in s;
      assert forall x :: x in s[1..] ==> x in s;
      FilterKeepsAll(s[1..], keep);
    }
  }

  /** Filters that agree on every entry of `s` give the same result. */
  lemma {:induction false} FilterAgrees<T(!new)>(s: seq<T>, f: T -> bool, g: T -> bool)
    requires forall x :: x in s ==> f(x) == g(x)
    ensures Filter(s, f) == Filter(s, g)
  {
    if s != [] {
      assert s[0] in s;
      assert forall x :: x in s[1..] ==> x in s;
      FilterAgrees(s[1..], f, g);
    }
  }

  // ---------------------------------------------------------------------------
  // String.prototype.toLowerCase and String.prototype.includes

  /** Lower case of one character: the letters A to Z map to a to z and every
      other character is kept. */
  function LowerChar(c: char): char
  {
    if 'A' <= c <= 'Z' then (c as int + 32) as char else c
  }

  /** The string in lower case, character by character. */
  function Lower(s: string): (r: string)
    ensures |r| == |s|
    ensures forall i :: 0 <= i < |s| ==> r[i] == LowerChar(s[i])
  {
    seq(|s|, i requires 0 <= i < |s| => LowerChar(s[i]))
  }

  /** A lower-cased string has no upper-case letter left. */
  lemma LowerHasNoCapitals(s: string, i: int)
    requires 0 <= i < |Lower(s)|
    ensures !('A' <= Lower(s)[i] <= 'Z')
  {
  }

  /** Lowering twice is lowering once. */
  lemma LowerIdempotent(s: string)
    ensures Lower(Lower(s)) == Lower(s)
  {
    assert forall i :: 0 <= i < |s| ==> LowerChar(LowerChar(s[i])) == LowerChar(s[i]);
  }

  /** `sub` occurs in `s` starting at index `i`. */
  ghost predicate OccursAt(s: string, sub: string, i: int)
  {
    0 <= i && i + |sub| <= |s| && s[i..i + |sub|] == sub
  }

  /** Whether `sub` occurs in `s`, trying each start from the left. */
  function Includes(s: string, sub: string): (r: bool)
    ensures sub == [] ==> r
    ensures r <==> exists i :: OccursAt(s, sub, i)
    decreases |s|
  {
    if sub <= s then
      assert OccursAt(s, sub, 0);
      true
    else if s == [] then
      assert forall i :: !OccursAt(s, sub, i);
      false
    else
      var r := Includes(s[1..], sub);
      forall i ensures OccursAt(s[1..], sub, i) <==> OccursAt(s, sub, i + 1) {
        if 0 <= i && i + 1 + |sub| <= |s| {
          assert s[1..][i..i + |sub|] == s[i + 1..i + 1 + |sub|];
        }
      }
      assert !OccursAt(s, sub, 0);
      assert forall i :: OccursAt(s, sub, i) && i != 0 ==> OccursAt(s[1..], sub, i - 1);
      r
  }

  // ---------------------------------------------------------------------------
  // The search

  /** The test applied to each record: the lower-cased name or the
      lower-cased title contains the lower-cased search term. */
  function MatchesSearch(e: Employee, term: string): bool
  {
    Includes(Lower(e.name), Lower(term)) || Includes(Lower(e.title), Lower(term))
  }

  /** filteredData: the records matching the search term, in input order. */
  function FilterBySearch(data: seq<Employee>, term: string): (r: seq<Employee>)
    ensures forall e :: e in r <==> e in data && MatchesSearch(e, term)
  {
    Filter(data, e => MatchesSearch(e, term))
  }

  /** A record is kept exactly when its name or title contains the term,
      ignoring case; the kept records keep their input order, and a kept
      record occurs as often as in the input. */
  lemma FilterBySearchSpec(data: seq<Employee>, term: string)
    ensures forall e :: e in FilterBySearch(data, term) <==>
              e in data && (Includes(Lower(e.name), Lower(term)) || Includes(Lower(e.title), Lower(term)))
    ensures IsSubsequence(FilterBySearch(data, term), data)
    ensures forall e :: multiset(FilterBySearch(data, term))[e] ==
              if MatchesSearch(e, term) then multiset(data)[e] else 0
  {
  }

  /** An empty search term keeps every record. */
  lemma EmptySearchKeepsAll(data: seq<Employee>)
    ensures FilterBySearch(data, "") == data
  {
    FilterKeepsAll(data, e => MatchesSearch(e, ""));
  }

  /** Terms that differ only in the case of letters keep the same records. */
  lemma SearchIgnoresCase(data: seq<Employee>, term1: string, term2: string)
    requires Lower(term1) == Lower(term2)
    ensures FilterBySearch(data, term1) == FilterBySearch(data, term2)
  {
    FilterAgrees(data, e => MatchesSearch(e, term1), e => MatchesSearch(e, term2));
  }

  /** Whether some record in `records` has id `id`. */
  function HasId(records: seq<Employee>, id: int): (r: bool)
    ensures r <==> id in Ids(records)
  {
    exists i :: 0 <= i < |records| && records[i].id == id
  }

  /** The cards shown for one level: the level's nodes whose id is among the
      filtered records, in level order. */
  function VisibleCards(level: seq<int>, filtered: seq<Employee>): (r: seq<int>)
    ensures forall x :: x in r <==> x in level && x in Ids(filtered)
    ensures IsSubsequence(r, level)
  {
    Filter(level, x => HasId(filtered, x))
  }

  /** With every record kept, each node of a level whose ids are record ids
      gets its card. */
  lemma AllCardsWithoutSearch(level: seq<int>, data: seq<Employee>)
    requires forall x :: x in level ==> x in Ids(data)
    ensures VisibleCards(level, FilterBySearch(data, "")) == level
  {
    EmptySearchKeepsAll(data);
    FilterKeepsAll(level, x => HasId(data, x));
  }
}

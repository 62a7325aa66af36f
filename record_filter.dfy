/**
 * The record viewer's filters: an optional project-name filter, then an optional
 * user filter, each keeping the rows whose column contains the filter text,
 * ignoring case (`df[df[col].str.contains(text, case=False, na=False)]`).
 *
 * The match is modelled as a literal substring test on ASCII-lowercased text;
 * pandas treats the filter text as a regular expression and folds full Unicode case.
 */
module RecordFilter {

  import opened ReferenceStore

  function LowerChar(c: char): char {
    if 'A' <= c <= 'Z' then (c as int - 'A' as int + 'a' as int) as char else c
  }

  /** ASCII lower case, character by character. */
  function Lower(s: string): (r: string)
    ensures |r| == |s| && forall i :: 0 <= i < |s| ==> r[i] == LowerChar(s[i])
  {
    if s == [] then [] else [LowerChar(s[0])] + Lower(s[1..])
  }

  /** `pat` occurs in `text` starting at position `i`. */
  predicate OccursAt(text: string, pat: string, i: nat) {
    i + |pat| <= |text| && text[i..i + |pat|] == pat
  }

  /** Literal substring search. */
  function Contains(text: string, pat: string): (b: bool)
    ensures b <==> exists i: nat :: OccursAt(text, pat, i)
    decreases |text|
  {
    if |pat| > |text| then false
    else if text[..|pat|] == pat then assert OccursAt(text, pat, 0); true
    else
      var b := Contains(text[1..], pat);
      assert b ==> exists i: nat :: OccursAt(text, pat, i) by {
        if b {
          var i: nat :| OccursAt(text[1..], pat, i);
          assert text[i + 1..i + 1 + |pat|] == text[1..][i..i + |pat|];
          assert OccursAt(text, pat, i + 1);
        }
      }
      assert (exists i: nat :: OccursAt(text, pat, i)) ==> b by {
        if exists i: nat :: OccursAt(text, pat, i) {
          var i: nat :| OccursAt(text, pat, i);
          assert i != 0;
          assert text[1..][i - 1..i - 1 + |pat|] == text[i..i + |pat|];
          assert OccursAt(text[1..], pat, i - 1);
        }
      }
      b
  }

  predicate ContainsIgnoringCase(text: string, pat: string) {
    Contains(Lower(text), Lower(pat))
  }

  /** The two filterable columns of the records table. */
  datatype Column = ProjectNameColumn | UserColumn

  function Cell(r: Record, column: Column): string {
    match column
    case ProjectNameColumn => r.projectName
    case UserColumn => r.user
  }

  /** One row passes one filter: its cell contains the filter text, ignoring case. */
  predicate Hit(r: Record, column: Column, pat: string) {
    ContainsIgnoringCase(Cell(r, column), pat)
  }

  /** The boolean column `df[column].str.contains(pat, case=False, na=False)`. */
  function Mask(rs: seq<Record>, column: Column, pat: string): seq<bool> {
    seq(|rs|, i requires 0 <= i < |rs| => Hit(rs[i], column, pat))
  }

  /** Boolean indexing `df[mask]`: the rows whose mask entry is true, in their original order. */
  function Select<T>(xs: seq<T>, mask: seq<bool>): (r: seq<T>)
    requires |mask| == |xs|
    ensures |r| <= |xs|
    ensures multiset(r) <= multiset(xs)
  {
    if xs == [] then []
    else
      var n := |xs| - 1;
      assert xs == xs[..n] + [xs[n]];
      Select(xs[..n], mask[..n]) + (if mask[n] then [xs[n]] else [])
  }

  /** The positions whose mask entry is true, in increasing order. */
  function Positions(mask: seq<bool>): (p: seq<nat>)
    ensures forall k :: 0 <= k < |p| ==> p[k] < |mask| && mask[p[k]]
    ensures forall k1, k2 :: 0 <= k1 < k2 < |p| ==> p[k1] < p[k2]
    ensures forall j :: 0 <= j < |mask| && mask[j] ==> j in p
  {
    if mask == [] then []
    else
      var n := |mask| - 1;
      Positions(mask[..n]) + (if mask[n] then [n] else [])
  }

  /** Selecting by a mask picks exactly the elements at the mask's true positions, in order. */
  lemma {:induction false} SelectAtPositions<T>(xs: seq<T>, mask: seq<bool>)
    requires |mask| == |xs|
    ensures |Select(xs, mask)| == |Positions(mask)|
    ensures forall k :: 0 <= k < |Positions(mask)| ==> Select(xs, mask)[k] == xs[Positions(mask)[k]]
  {
    if xs != [] {
      var n := |xs| - 1;
      SelectAtPositions(xs[..n], mask[..n]);
    }
  }

  lemma SelectSnoc<T>(xs: seq<T>, mask: seq<bool>, x: T, b: bool)
    requires |mask| == |xs|
    ensures Select(xs + [x], mask + [b]) == Select(xs, mask) + (if b then [x] else [])
  {
  }

  /** `df[df[column].str.contains(pat, case=False)]`. */
  function Where(rs: seq<Record>, column: Column, pat: string): seq<Record> {
    Select(rs, Mask(rs, column, pat))
  }

  lemma WhereSnoc(rs: seq<Record>, x: Record, column: Column, pat: string)
    ensures Where(rs + [x], column, pat) == Where(rs, column, pat) + (if Hit(x, column, pat) then [x] else [])
  {
    assert Mask(rs + [x], column, pat) == Mask(rs, column, pat) + [Hit(x, column, pat)];
    SelectSnoc(rs, Mask(rs, column, pat), x, Hit(x, column, pat));
  }

  /** The viewer's filtering: each filter applies only when its text is non-empty, project name first. */
  function ApplyFilters(rs: seq<Record>, filterProject: string, filterUser: string): (r: seq<Record>)
    ensures filterProject == [] && filterUser == [] ==> r == rs
    ensures |r| <= |rs| && multiset(r) <= multiset(rs)
  {
    var byProject := if filterProject != [] then Where(rs, ProjectNameColumn, filterProject) else rs;
    if filterUser != [] then Where(byProject, UserColumn, filterUser) else byProject
  }

  /** A record is kept when every non-empty filter text occurs, ignoring case, in its column. */
  predicate Keeps(r: Record, filterProject: string, filterUser: string) {
    (filterProject == [] || Hit(r, ProjectNameColumn, filterProject)) &&
    (filterUser == [] || Hit(r, UserColumn, filterUser))
  }

  function KeepMask(rs: seq<Record>, filterProject: string, filterUser: string): seq<bool> {
    seq(|rs|, i requires 0 <= i < |rs| => Keeps(rs[i], filterProject, filterUser))
  }

  lemma ApplyFiltersSnoc(rs: seq<Record>, x: Record, filterProject: string, filterUser: string)
    ensures ApplyFilters(rs + [x], filterProject, filterUser)
         == ApplyFilters(rs, filterProject, filterUser) + (if Keeps(x, filterProject, filterUser) then [x] else [])
  {
    var rs' := rs + [x];
    var byProject := if filterProject != [] then Where(rs, ProjectNameColumn, filterProject) else rs;
    var byProject' := if filterProject != [] then Where(rs', ProjectNameColumn, filterProject) else rs';
    var hitProject := filterProject == [] || Hit(x, ProjectNameColumn, filterProject);
    if filterProject != [] {
      WhereSnoc(rs, x, ProjectNameColumn, filterProject);
    }
    assert byProject' == byProject + (if hitProject then [x] else []);
    if filterUser != [] {
      if hitProject {
        WhereSnoc(byProject, x, UserColumn, filterUser);
        assert Where(byProject', UserColumn, filterUser)
            == Where(byProject, UserColumn, filterUser) + (if Hit(x, UserColumn, filterUser) then [x] else []);
      } else {
        assert byProject' == byProject;
      }
      assert ApplyFilters(rs', filterProject, filterUser) == Where(byProject', UserColumn, filterUser);
      assert ApplyFilters(rs, filterProject, filterUser) == Where(byProject, UserColumn, filterUser);
    } else {
      assert ApplyFilters(rs', filterProject, filterUser) == byProject';
      assert ApplyFilters(rs, filterProject, filterUser) == byProject;
    }
  }

  lemma KeepMaskSnoc(rs: seq<Record>, x: Record, filterProject: string, filterUser: string)
    ensures KeepMask(rs + [x], filterProject, filterUser)
         == KeepMask(rs, filterProject, filterUser) + [Keeps(x, filterProject, filterUser)]
  {
  }

  /** Applying the filters one after the other is one selection by the conjunction of both. */
  lemma {:induction false} ApplyFiltersIsSelect(rs: seq<Record>, filterProject: string, filterUser: string)
    ensures ApplyFilters(rs, filterProject, filterUser) == Select(rs, KeepMask(rs, filterProject, filterUser))
    decreases |rs|
  {
    if rs != [] {
      var n := |rs| - 1;
      var front, x := rs[..n], rs[n];
      assert rs == front + [x];
      var keep := Keeps(x, filterProject, filterUser);
      var tail := if keep then [x] else [];
      ApplyFiltersIsSelect(front, filterProject, filterUser);
      ApplyFiltersSnoc(front, x, filterProject, filterUser);
      KeepMaskSnoc(front, x, filterProject, filterUser);
      SelectSnoc(front, KeepMask(front, filterProject, filterUser), x, keep);
      calc {
        ApplyFilters(rs, filterProject, filterUser);
        ApplyFilters(front, filterProject, filterUser) + tail;
        Select(front, KeepMask(front, filterProject, filterUser)) + tail;
        Select(front + [x], KeepMask(front, filterProject, filterUser) + [keep]);
        Select(rs, KeepMask(rs, filterProject, filterUser));
      }
    }
  }

  /**
   * The filtered table is the subsequence of the records at the increasing positions `idx`,
   * and a position is among them exactly when its record passes every non-empty filter.
   */
  lemma FilterExact(rs: seq<Record>, filterProject: string, filterUser: string)
    ensures var out := ApplyFilters(rs, filterProject, filterUser);
      var idx := Positions(KeepMask(rs, filterProject, filterUser));
      && |out| == |idx|
      && (forall k :: 0 <= k < |idx| ==> idx[k] < |rs| && out[k] == rs[idx[k]])
      && (forall k1, k2 :: 0 <= k1 < k2 < |idx| ==> idx[k1] < idx[k2])
      && (forall j :: 0 <= j < |rs| ==> (j in idx <==> Keeps(rs[j], filterProject, filterUser)))
  {
    ApplyFiltersIsSelect(rs, filterProject, filterUser);
    SelectAtPositions(rs, KeepMask(rs, filterProject, filterUser));
  }

  /** A record is in the filtered table exactly when it is a record that passes every non-empty filter. */
  lemma FilterMembership(rs: seq<Record>, filterProject: string, filterUser: string, x: Record)
    ensures x in ApplyFilters(rs, filterProject, filterUser) <==> x in rs && Keeps(x, filterProject, filterUser)
  {
    var out := ApplyFilters(rs, filterProject, filterUser);
    var idx := Positions(KeepMask(rs, filterProject, filterUser));
    FilterExact(rs, filterProject, filterUser);
    if x in out {
      var k :| 0 <= k < |out| && out[k] == x;
      assert Keeps(rs[idx[k]], filterProject, filterUser);
    }
    if x in rs && Keeps(x, filterProject, filterUser) {
      var j :| 0 <= j < |rs| && rs[j] == x;
      assert j in idx;
      var k :| 0 <= k < |idx| && idx[k] == j;
      assert out[k] == x;
    }
  }

  /** Both filters together keep the records that each filter alone keeps. */
  lemma FilterIntersection(rs: seq<Record>, filterProject: string, filterUser: string, x: Record)
    ensures x in ApplyFilters(rs, filterProject, filterUser)
        <==> x in ApplyFilters(rs, filterProject, []) && x in ApplyFilters(rs, [], filterUser)
  {
    FilterMembership(rs, filterProject, filterUser, x);
    FilterMembership(rs, filterProject, [], x);
    FilterMembership(rs, [], filterUser, x);
  }

  /** The match ignores case on both sides: lowering the text or the filter changes nothing. */
  lemma IgnoresCase(text: string, pat: string)
    ensures ContainsIgnoringCase(Lower(text), pat) == ContainsIgnoringCase(text, pat)
    ensures ContainsIgnoringCase(text, Lower(pat)) == ContainsIgnoringCase(text, pat)
  {
    LowerIdempotent(text);
    LowerIdempotent(pat);
  }

  lemma LowerIdempotent(s: string)
    ensures Lower(Lower(s)) == Lower(s)
  {
  }

}
